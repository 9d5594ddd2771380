/** Types that the loader receives from the shared commons crate and only
    inspects: the language tag and the two dictionary variants. */
module Commons {

  /** One tag of the closed language enumeration. The loader only compares
      tags for equality and reports them, so a tag is identified here by its
      position in the enumeration. */
  datatype Language = Language(ordinal: nat)

  /** The part of a dictionary this core never looks at (patterns, exceptions,
      hyphenation minima, ...), carried unexamined. */
  datatype Opaque = Opaque(id: nat)

  /** The standard dictionary variant; the loader reads only `language`. */
  datatype Standard = Standard(language: Language, rest: Opaque)

  /** The extended dictionary variant; the loader reads only `language`. */
  datatype Extended = Extended(language: Language, rest: Opaque)

  /** Field access `dict.language`, as a function value for the generic loader. */
  function StandardLanguage(d: Standard): Language
  {
    d.language
  }

  function ExtendedLanguage(d: Extended): Language
  {
    d.language
  }
}

/** The foreign failure values the loader wraps: `std::io::Error` and
    `bincode::Error`, and bincode's result type. Their internals belong to
    other crates; each carries the text its own `Display` renders. */
module Foreign {

  datatype IoError = IoError(message: string)

  datatype BinError = BinError(message: string)

  /** `bincode::Result<T>`: what one call of the decoder produces. */
  datatype BinResult<T> = BinOk(value: T) | BinErr(error: BinError)
}
