/** The stream loader: decode a dictionary from a reader through the foreign
    binary decoder, then, for the verified entry point, check that it belongs
    to the requested language. Written once over the dictionary type `D` and
    the reader type `R`, and instantiated for both variants, as the source's
    macro does. The decoder is a parameter: `decode(limit, reader)` stands
    for bincode's `deserialize_from` with a byte limit. */
module Load {
  import opened Commons
  import opened Foreign
  import opened Errors

  /** The byte limit the loader configures on the decoder. */
  const DecodeLimit: nat := 5_000_000

  /** `from_reader`: decode, then compare the embedded language with the
      requested one. A verified load never yields a dictionary of another
      language, and never fails with `IO` or `Resource`: every decoder
      failure, read errors included, reaches the caller through
      `From<bin::Error>`. */
  function FromReader<D, R>(lang: Language, reader: R, decode: (nat, R) -> BinResult<D>,
                            languageOf: D -> Language): (r: Result<D>)
    ensures r.Ok? ==> languageOf(r.value) == lang
    ensures r.Err? ==> r.error.Deserialization? || r.error.LanguageMismatch?
  {
    match decode(DecodeLimit, reader)
    case BinErr(e) => Err(FromBin(e))
    case BinOk(dict) =>
      var found, expected := languageOf(dict), lang;
      if found != expected then Err(LanguageMismatch(expected, found)) else Ok(dict)
  }

  /** `any_from_reader`: decode with no language check. */
  function AnyFromReader<D, R>(reader: R, decode: (nat, R) -> BinResult<D>): (r: Result<D>)
    ensures r.Err? ==> r.error.Deserialization?
  {
    match decode(DecodeLimit, reader)
    case BinErr(e) => Err(FromBin(e))
    case BinOk(dict) => Ok(dict)
  }

  /** A verified load succeeds with `d` exactly when the decoder produced `d`
      and `d` carries the requested language. */
  lemma FromReaderOk<D, R>(lang: Language, reader: R, decode: (nat, R) -> BinResult<D>,
                           languageOf: D -> Language, d: D)
    ensures FromReader(lang, reader, decode, languageOf) == Ok(d)
        <==> decode(DecodeLimit, reader) == BinOk(d) && languageOf(d) == lang
  {
  }

  /** A decoded dictionary of another language is discarded, and the error
      names the requested and the found language, in that order. */
  lemma FromReaderMismatch<D, R>(lang: Language, reader: R, decode: (nat, R) -> BinResult<D>,
                                 languageOf: D -> Language, d: D)
    requires decode(DecodeLimit, reader) == BinOk(d)
    requires languageOf(d) != lang
    ensures FromReader(lang, reader, decode, languageOf) == Err(LanguageMismatch(lang, languageOf(d)))
  {
  }

  /** A decoder failure reaches the caller of either entry point as
      `Deserialization` with the same cause, and the verified load answers
      the same whatever language is requested and however the language is
      read: the comparison is never reached. */
  lemma DecodeFailurePropagates<D, R>(lang: Language, lang': Language, reader: R,
                                      decode: (nat, R) -> BinResult<D>,
                                      languageOf: D -> Language, languageOf': D -> Language,
                                      e: BinError)
    requires decode(DecodeLimit, reader) == BinErr(e)
    ensures FromReader(lang, reader, decode, languageOf) == Err(Deserialization(e))
    ensures AnyFromReader(reader, decode) == Err(Deserialization(e))
    ensures FromReader(lang, reader, decode, languageOf) == FromReader(lang', reader, decode, languageOf')
  {
  }

  /** The unverified load returns what the decoder produced, unchanged,
      whatever its language. */
  lemma AnyFromReaderOk<D, R>(reader: R, decode: (nat, R) -> BinResult<D>, d: D)
    ensures AnyFromReader(reader, decode) == Ok(d) <==> decode(DecodeLimit, reader) == BinOk(d)
  {
  }

  /** A caller matching on the error kind recovers the failing stage. */
  lemma FailureStage<D, R>(lang: Language, reader: R, decode: (nat, R) -> BinResult<D>,
                           languageOf: D -> Language)
    requires FromReader(lang, reader, decode, languageOf).Err?
    ensures FromReader(lang, reader, decode, languageOf).error.Deserialization?
        <==> decode(DecodeLimit, reader).BinErr?
    ensures FromReader(lang, reader, decode, languageOf).error.LanguageMismatch?
        <==> decode(DecodeLimit, reader).BinOk? && languageOf(decode(DecodeLimit, reader).value) != lang
  {
  }

  /** Reference definition: a language check applied after an unverified load. */
  function CheckLanguage<D>(lang: Language, loaded: Result<D>, languageOf: D -> Language): Result<D>
  {
    match loaded
    case Err(e) => Err(e)
    case Ok(d) => if languageOf(d) == lang then Ok(d) else Err(LanguageMismatch(lang, languageOf(d)))
  }

  /** The verified load is the unverified load followed by the language
      check; in particular, when the languages agree both entry points return
      the same dictionary. */
  lemma FromReaderIsCheckedAny<D, R>(lang: Language, reader: R, decode: (nat, R) -> BinResult<D>,
                                     languageOf: D -> Language)
    ensures FromReader(lang, reader, decode, languageOf)
         == CheckLanguage(lang, AnyFromReader(reader, decode), languageOf)
    ensures AnyFromReader(reader, decode).Ok? && languageOf(AnyFromReader(reader, decode).value) == lang
        ==> FromReader(lang, reader, decode, languageOf) == AnyFromReader(reader, decode)
  {
  }

  // The two instantiations of the loader, one per dictionary variant.

  function StandardFromReader<R>(lang: Language, reader: R, decode: (nat, R) -> BinResult<Standard>)
    : (r: Result<Standard>)
    ensures r.Ok? ==> r.value.language == lang
  {
    FromReader(lang, reader, decode, StandardLanguage)
  }

  function StandardAnyFromReader<R>(reader: R, decode: (nat, R) -> BinResult<Standard>)
    : (r: Result<Standard>)
    ensures r.Err? ==> r.error.Deserialization?
  {
    AnyFromReader(reader, decode)
  }

  function ExtendedFromReader<R>(lang: Language, reader: R, decode: (nat, R) -> BinResult<Extended>)
    : (r: Result<Extended>)
    ensures r.Ok? ==> r.value.language == lang
  {
    FromReader(lang, reader, decode, ExtendedLanguage)
  }

  function ExtendedAnyFromReader<R>(reader: R, decode: (nat, R) -> BinResult<Extended>)
    : (r: Result<Extended>)
    ensures r.Err? ==> r.error.Deserialization?
  {
    AnyFromReader(reader, decode)
  }

  /** A decoder outcome with the dictionary reduced to its language tag. */
  function DecodedLanguage<D>(b: BinResult<D>, languageOf: D -> Language): BinResult<Language>
  {
    match b
    case BinErr(e) => BinErr(e)
    case BinOk(d) => BinOk(languageOf(d))
  }

  /** A load outcome with the dictionary reduced to its language tag. */
  function LoadedLanguage<D>(r: Result<D>, languageOf: D -> Language): Result<Language>
  {
    match r
    case Err(e) => Err(e)
    case Ok(d) => Ok(languageOf(d))
  }

  /** Both variants are checked alike: when a standard and an extended
      decoder fail the same way or yield the same language, the two verified
      loads fail the same way or both succeed. */
  lemma VariantsCheckedAlike<R1, R2>(lang: Language,
                                     rs: R1, ds: (nat, R1) -> BinResult<Standard>,
                                     re: R2, de: (nat, R2) -> BinResult<Extended>)
    requires DecodedLanguage(ds(DecodeLimit, rs), StandardLanguage)
          == DecodedLanguage(de(DecodeLimit, re), ExtendedLanguage)
    ensures LoadedLanguage(StandardFromReader(lang, rs, ds), StandardLanguage)
         == LoadedLanguage(ExtendedFromReader(lang, re, de), ExtendedLanguage)
  {
  }
}
