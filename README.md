# Verified loading of hyphenation dictionaries

A Dafny model of the loading layer of kl-hyphenate (`src/load.rs`). It covers
the part that reads a hyphenation dictionary from a byte stream, in either the
`Standard` or the `Extended` variant. The loader then checks the dictionary's
embedded language tag against the language the caller asked for. Failures come
back as a closed error type. That type exposes the underlying cause, renders a
message, and is built from the two foreign error kinds by the `From`
conversions.

Layout:

- `commons.dfy`, module `Commons`: the types the loader takes from the shared
  commons crate. These are the `Language` tag and the `Standard` and
  `Extended` dictionaries. The loader reads only their `language` field.
- `commons.dfy`, module `Foreign`: stand-ins for `std::io::Error`,
  `bincode::Error` and `bincode::Result`. Each error carries the text its own
  `Display` prints.
- `errors.dfy`, module `Errors`: `Error`, the crate's `Result<T>`,
  `Error::source`, `Display for Error`, `From<io::Error>` and
  `From<bin::Error>`.
- `load.dfy`, module `Load`: `from_reader` and `any_from_reader`.
  - They are written once, generic over the dictionary type and the reader
    type, just as the `impl_load!` macro writes one body.
  - They are instantiated for `Standard` and `Extended`.
  - The bincode decoder is a function parameter
    `decode: (nat, R) -> BinResult<D>`. It is called with the configured limit
    `DecodeLimit` = 5,000,000, as `bin::config().limit(5_000_000).deserialize_from(reader)` is.
  - The `?` after the decode call is modelled by the `From<bin::Error>`
    conversion `FromBin`.

The main property is that a verified load never returns a dictionary of a
different language. A dictionary of the wrong language is reported as
`LanguageMismatch { expected, found }` with both values in the right order. A
decoder failure reaches the caller unchanged, as `Deserialization`.

Two behaviours of the code are worth stating outright:

- The comment on `IO` says "The dictionary could not be read"
  (src/load.rs:101). Yet a read error inside `from_reader` comes out of
  bincode as a `bin::Error`, and the `?` turns it into `Deserialization`
  (src/load.rs:74, 137-139). So `Load.FromReader` and `Load.AnyFromReader`
  never return `IO`. `IO` is produced only by `from_path`'s `File::open`,
  which is not part of this model.
- `Display` delegates both `Deserialization` and `IO` to the cause's own
  formatting (src/load.rs:122-123). So the rendered text alone cannot tell
  the two kinds apart. The error kind, from matching on it or calling
  `Source`, always can.

## Model

| member | source | states |
|---|---|---|
| `Load.FromReader` | src/load.rs:72-79 | a successful verified load returns a dictionary whose language is the requested one; a failure is only ever `Deserialization` or `LanguageMismatch`, never `IO` or `Resource` |
| `Load.FromReaderOk` | src/load.rs:74-78 | the verified load returns `Ok(d)` if and only if the decoder produced `d` and `d`'s language equals the requested language |
| `Load.FromReaderMismatch` | src/load.rs:75-77 | when the decoded dictionary's language `f` differs from `lang`, the result is exactly `LanguageMismatch { expected: lang, found: f }` and no dictionary |
| `Load.DecodeFailurePropagates` | src/load.rs:74-83 | when the decoder fails with cause `e`, both entry points return `Deserialization(e)`; the verified result does not depend on the requested language or on how the language is read, so the comparison is never reached |
| `Load.AnyFromReader` | src/load.rs:81-85 | an unverified load can fail only with `Deserialization` |
| `Load.AnyFromReaderOk` | src/load.rs:81-85 | the unverified load returns `Ok(d)` if and only if the decoder produced `d`, whatever `d`'s language |
| `Load.FailureStage` | src/load.rs:74-77 | for a failed verified load, the error is `Deserialization` exactly when decoding failed, and `LanguageMismatch` exactly when decoding succeeded with a different language |
| `Load.FromReaderIsCheckedAny` | src/load.rs:72-85 | the verified load equals the unverified load followed by the language check; when the decoded language matches, both return the same `Ok(d)` |
| `Load.StandardFromReader` | src/load.rs:90 | the `Standard` instantiation: a successful load carries the requested language |
| `Load.StandardAnyFromReader` | src/load.rs:90 | the `Standard` instantiation of the unverified load fails only with `Deserialization` |
| `Load.ExtendedFromReader` | src/load.rs:91 | the `Extended` instantiation: a successful load carries the requested language |
| `Load.ExtendedAnyFromReader` | src/load.rs:91 | the `Extended` instantiation of the unverified load fails only with `Deserialization` |
| `Load.VariantsCheckedAlike` | src/load.rs:69-91 | a standard and an extended decoder that fail the same way, or yield the same language, give verified loads that fail the same way or both succeed with that language |
| `Errors.Source` | src/load.rs:110-116 | `source()` is present exactly for `Deserialization` and `IO`, and absent for `LanguageMismatch` and `Resource` |
| `Errors.FromIo` | src/load.rs:133-135 | converting an `io::Error` gives an `IO` error whose `source()` is the original error |
| `Errors.FromBin` | src/load.rs:137-139 | converting a `bin::Error` gives a `Deserialization` error whose `source()` is the original error |
| `Errors.ConversionsLossless` | src/load.rs:133-139 | the two conversions never produce the same error, and each one is injective |
| `Errors.Display` | src/load.rs:119-131 | an error with a cause renders as that cause's own text; a mismatch message names the expected language, then the found one, at fixed offsets; `Resource` renders its fixed text. Its properties are proved in `DisplayDelegatesToCause`, `MismatchMessageNamesBoth`, `MismatchMessageInjective` and `ResourceMessageDistinct` |
| `Errors.DisplayDelegatesToCause` | src/load.rs:122-123 | an error converted from a foreign error renders exactly as that foreign error does |
| `Errors.MismatchMessageNamesBoth` | src/load.rs:124-127 | the mismatch message contains the expected language's name and then the found language's name, each at its fixed offset and each between backquotes |
| `Errors.MismatchMessageInjective` | src/load.rs:124-127 | if language names are distinct and contain no backquote, two equal mismatch messages have the same expected and the same found language |
| `Errors.ResourceMessageDistinct` | src/load.rs:128 | the fixed `Resource` message differs from every mismatch message |

## Left out

- `from_path` (src/load.rs:53-57) opens a file and wraps it in a buffered reader. That is file-system I/O. Its only effect on the error taxonomy is that an open failure becomes `IO` through `From<io::Error>`, which `Errors.FromIo` covers.
- The bincode wire format and the enforcement of the 5,000,000-byte limit belong to the decoder, a foreign library. The model passes the limit to the decoder parameter and makes no claim about byte layout or about the limit being honoured.
- Advancing and consuming the reader happens inside the decoder. The model has no reader state.
- The `Language` enumeration and its `Display` live in the commons crate. A language is a tag compared by equality, and its name is a function parameter.
- The internals of the `Standard` and `Extended` dictionaries belong to the commons crate. They are carried as an unexamined field.
- `Error::Resource` has no producer in this file, so nothing in the model produces it. Only its `source()` and its message are modelled.
- `Debug` (derived) and the `$suffix` macro argument do nothing in the loader's behaviour.
