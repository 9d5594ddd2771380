/** The failure modes of dictionary loading: a closed tagged union, the cause
    each kind exposes, its rendering, and the two conversions from the foreign
    failure kinds that the `?` operator applies. */
module Errors {
  import opened Commons
  import opened Foreign

  datatype Error =
    | Deserialization(bin: BinError)
    | IO(io: IoError)
    | LanguageMismatch(expected: Language, found: Language)
    | Resource

  /** The crate's `Result<T>`, whose error type is always `Error`. */
  datatype Result<T> = Ok(value: T) | Err(error: Error)

  datatype Option<T> = None | Some(value: T)

  /** What `source()` can point at: the wrapped foreign error. */
  datatype Cause = IoCause(io: IoError) | BinCause(bin: BinError)

  /** `Error::source`: the underlying cause, for error-chain walking. */
  function Source(e: Error): (r: Option<Cause>)
    ensures r.Some? <==> (e.Deserialization? || e.IO?)
  {
    match e
    case Deserialization(c) => Some(BinCause(c))
    case IO(c) => Some(IoCause(c))
    case _ => None
  }

  /** `From<io::Error>`: the conversion keeps the original error as the cause. */
  function FromIo(err: IoError): (e: Error)
    ensures e.IO?
    ensures Source(e) == Some(IoCause(err))
  {
    IO(err)
  }

  /** `From<bin::Error>`: the conversion keeps the original error as the cause. */
  function FromBin(err: BinError): (e: Error)
    ensures e.Deserialization?
    ensures Source(e) == Some(BinCause(err))
  {
    Deserialization(err)
  }

  /** The two conversions never produce the same error, and each is
      injective: the stage and the cause can both be recovered. */
  lemma ConversionsLossless(i1: IoError, i2: IoError, b1: BinError, b2: BinError)
    ensures FromIo(i1) != FromBin(b1)
    ensures FromIo(i1) == FromIo(i2) <==> i1 == i2
    ensures FromBin(b1) == FromBin(b2) <==> b1 == b2
  {
  }

  // The text of `Display`, piece by piece.
  const MismatchLead: string := "Language mismatch: attempted to load a dictionary for `"
  const MismatchMiddle: string := "`, but found\na dictionary for `"
  const MismatchTail: string := "` instead."
  const ResourceMessage: string := "the embedded dictionary could not be retrieved"

  /** The `LanguageMismatch` message; `show` is the language's own `Display`,
      which lives in the commons crate. */
  function MismatchMessage(expected: Language, found: Language, show: Language -> string): string
  {
    MismatchLead + (show(expected) + (MismatchMiddle + (show(found) + MismatchTail)))
  }

  /** `sub` appears in `s` starting at offset `at`. */
  predicate OccursAt(sub: string, s: string, at: nat)
  {
    at + |sub| <= |s| && s[at..at + |sub|] == sub
  }

  /** The text a cause renders with its own `Display`. */
  function CauseMessage(c: Cause): string
  {
    match c
    case IoCause(i) => i.message
    case BinCause(b) => b.message
  }

  /** `Display for Error`: an error with a cause renders as that cause does;
      a mismatch names the expected and then the found language; `Resource`
      renders a fixed text. */
  function Display(e: Error, show: Language -> string): (s: string)
    ensures Source(e).Some? ==> s == CauseMessage(Source(e).value)
    ensures e.LanguageMismatch? ==>
      OccursAt(show(e.expected), s, |MismatchLead|) &&
      OccursAt(show(e.found), s, |MismatchLead| + |show(e.expected)| + |MismatchMiddle|)
    ensures e.Resource? ==> s == ResourceMessage
  {
    match e
    case Deserialization(c) => c.message
    case IO(c) => c.message
    case LanguageMismatch(expected, found) => MismatchMessage(expected, found, show)
    case Resource => ResourceMessage
  }

  /** A failure converted from a foreign error renders as that error does. */
  lemma DisplayDelegatesToCause(i: IoError, b: BinError, show: Language -> string)
    ensures Display(FromIo(i), show) == i.message
    ensures Display(FromBin(b), show) == b.message
  {
  }

  /** The mismatch message names both languages, each inside backquotes. */
  lemma MismatchMessageNamesBoth(expected: Language, found: Language, show: Language -> string)
    ensures var m, i := Display(LanguageMismatch(expected, found), show), |MismatchLead|;
      var j := i + |show(expected)| + |MismatchMiddle|;
      OccursAt(show(expected), m, i) && m[i - 1] == '`' && m[i + |show(expected)|] == '`' &&
      OccursAt(show(found), m, j) && m[j - 1] == '`' && m[j + |show(found)|] == '`'
  {
  }

  /** Language names are readable in a message when distinct languages have
      distinct names and no name contains a backquote. */
  ghost predicate ReadableNames(show: Language -> string)
  {
    (forall l1, l2 :: show(l1) == show(l2) ==> l1 == l2) &&
    (forall l :: '`' !in show(l))
  }

  /** The position of the first backquote in `s`, or `|s|` if there is none. */
  function BackquoteIndex(s: string): (i: nat)
    ensures i <= |s|
    ensures forall k :: 0 <= k < i ==> s[k] != '`'
    ensures i < |s| ==> s[i] == '`'
  {
    if s == [] then 0 else if s[0] == '`' then 0 else 1 + BackquoteIndex(s[1..])
  }

  /** A text with no backquote, followed by one starting with a backquote:
      the first backquote is where the first text ends. */
  lemma {:induction false} BackquoteIndexAfter(a: string, x: string)
    requires '`' !in a
    requires |x| > 0 && x[0] == '`'
    ensures BackquoteIndex(a + x) == |a|
  {
    if a != [] {
      assert (a + x)[0] == a[0];
      assert (a + x)[1..] == a[1..] + x;
      BackquoteIndexAfter(a[1..], x);
    }
  }

  /** Two strings without a backquote, each followed by a text starting with
      a backquote, are separated at the same place. */
  lemma SplitAtBackquote(a: string, x: string, b: string, y: string)
    requires '`' !in a && '`' !in b
    requires |x| > 0 && x[0] == '`' && |y| > 0 && y[0] == '`'
    requires a + x == b + y
    ensures a == b && x == y
  {
    BackquoteIndexAfter(a, x);
    BackquoteIndexAfter(b, y);
    assert a == (a + x)[..|a|];
    assert b == (b + y)[..|b|];
    assert x == (a + x)[|a|..];
    assert y == (b + y)[|b|..];
  }

  /** With readable names, the rendered mismatch message determines both the
      expected and the found language: a caller can rebuild the mismatch
      from its text alone. */
  lemma MismatchMessageInjective(e1: Language, f1: Language, e2: Language, f2: Language,
                                 show: Language -> string)
    requires ReadableNames(show)
    requires Display(LanguageMismatch(e1, f1), show) == Display(LanguageMismatch(e2, f2), show)
    ensures e1 == e2 && f1 == f2
  {
    var a1, a2, b1, b2 := show(e1), show(e2), show(f1), show(f2);
    var r1 := MismatchMiddle + (b1 + MismatchTail);
    var r2 := MismatchMiddle + (b2 + MismatchTail);
    assert (MismatchLead + (a1 + r1))[|MismatchLead|..] == a1 + r1;
    assert (MismatchLead + (a2 + r2))[|MismatchLead|..] == a2 + r2;
    assert '`' !in a1 && '`' !in a2;
    SplitAtBackquote(a1, r1, a2, r2);
    assert r1[|MismatchMiddle|..] == b1 + MismatchTail;
    assert r2[|MismatchMiddle|..] == b2 + MismatchTail;
    assert b1 == (b1 + MismatchTail)[..|b1|];
    assert b2 == (b2 + MismatchTail)[..|b2|];
  }

  /** The fixed `Resource` message is never a mismatch message. */
  lemma ResourceMessageDistinct(expected: Language, found: Language, show: Language -> string)
    ensures Display(Resource, show) != Display(LanguageMismatch(expected, found), show)
  {
  }
}
