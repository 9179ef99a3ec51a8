/** The handful of Python string methods the digest uses on its inputs (strip,
    rstrip, lower, upper, split and %-interpolation), over ASCII. */
module Text {
  import opened Wrappers

  /** Python's str.isspace() on ASCII characters: space, \t \n \v \f \r and the
      four information separators \x1c-\x1f. */
  predicate IsSpace(c: char) {
    c == ' ' || ('\t' <= c <= '\r') || ('\U{1C}' <= c <= '\U{1F}')
  }

  /** str.lstrip() */
  function TrimStart(s: string): (r: string)
    ensures |r| <= |s|
    decreases |s|
  {
    if s != [] && IsSpace(s[0]) then TrimStart(s[1..]) else s
  }

  /** lstrip drops the leading whitespace and nothing else. */
  lemma {:induction false} TrimStartFacts(s: string)
    ensures TrimStart(s) == s[|s| - |TrimStart(s)|..]
    ensures TrimStart(s) == [] || !IsSpace(TrimStart(s)[0])
    ensures forall i :: 0 <= i < |s| - |TrimStart(s)| ==> IsSpace(s[i])
    decreases |s|
  {
    if s != [] && IsSpace(s[0]) {
      TrimStartFacts(s[1..]);
      assert s[1..][|s| - 1 - |TrimStart(s)|..] == s[|s| - |TrimStart(s)|..];
      assert forall i :: 1 <= i < |s| - |TrimStart(s)| ==> s[i] == s[1..][i - 1];
    }
  }

  /** str.rstrip() */
  function TrimEnd(s: string): (r: string)
    ensures |r| <= |s|
    decreases |s|
  {
    if s != [] && IsSpace(s[|s| - 1]) then TrimEnd(s[..|s| - 1]) else s
  }

  /** rstrip drops the trailing whitespace and nothing else. */
  lemma {:induction false} TrimEndFacts(s: string)
    ensures TrimEnd(s) == s[..|TrimEnd(s)|]
    ensures TrimEnd(s) == [] || !IsSpace(TrimEnd(s)[|TrimEnd(s)| - 1])
    ensures forall i :: |TrimEnd(s)| <= i < |s| ==> IsSpace(s[i])
    decreases |s|
  {
    if s != [] && IsSpace(s[|s| - 1]) {
      TrimEndFacts(s[..|s| - 1]);
      assert s[..|s| - 1][..|TrimEnd(s)|] == s[..|TrimEnd(s)|];
    }
  }

  /** str.strip() */
  function Strip(s: string): string {
    TrimEnd(TrimStart(s))
  }

  /** Strip(s) is the slice of s left once the whitespace at both ends is gone. */
  lemma StripSlice(s: string) returns (k: nat)
    ensures k + |Strip(s)| <= |s| && Strip(s) == s[k..k + |Strip(s)|]
    ensures forall i :: 0 <= i < k ==> IsSpace(s[i])
    ensures forall i :: k + |Strip(s)| <= i < |s| ==> IsSpace(s[i])
    ensures Strip(s) == [] || (!IsSpace(Strip(s)[0]) && !IsSpace(Strip(s)[|Strip(s)| - 1]))
  {
    var t := TrimStart(s);
    TrimStartFacts(s);
    TrimEndFacts(t);
    k := |s| - |t|;
    var r := TrimEnd(t);
    assert r == t[..|r|];
    assert forall i :: k + |r| <= i < |s| ==> s[i] == t[i - k];
    if r != [] {
      assert r[0] == t[0];
    }
  }

  /** A string without whitespace at either end is its own strip. */
  lemma StripUnchanged(s: string)
    requires s == [] || (!IsSpace(s[0]) && !IsSpace(s[|s| - 1]))
    ensures Strip(s) == s
  {
  }

  /** str.rstrip(c) for a single character c. */
  function RStrip(s: string, c: char): (r: string)
    ensures |r| <= |s| && r == s[..|r|]
    ensures r == [] || r[|r| - 1] != c
    ensures forall i :: |r| <= i < |s| ==> s[i] == c
    decreases |s|
  {
    if s != [] && s[|s| - 1] == c then RStrip(s[..|s| - 1], c) else s
  }

  function LowerChar(c: char): char {
    if 'A' <= c <= 'Z' then (c as int + 32) as char else c
  }

  function UpperChar(c: char): char {
    if 'a' <= c <= 'z' then (c as int - 32) as char else c
  }

  /** str.lower() on ASCII letters. */
  function Lower(s: string): string {
    seq(|s|, i requires 0 <= i < |s| => LowerChar(s[i]))
  }

  /** str.upper() on ASCII letters. */
  function Upper(s: string): string {
    seq(|s|, i requires 0 <= i < |s| => UpperChar(s[i]))
  }

  /** Lowering keeps every character's whitespace class, so it commutes with Strip
      and leaves a lowered string unchanged. */
  lemma LowerFacts(s: string)
    ensures Lower(Lower(s)) == Lower(s)
    ensures forall i :: 0 <= i < |s| ==> (IsSpace(Lower(s)[i]) <==> IsSpace(s[i]))
  {
  }

  /** s.split(c, 1)[0]: the text before the first c, or all of s when c does not occur. */
  function BeforeFirst(s: string, c: char): (r: string)
    ensures r <= s
    ensures c !in r
    ensures r == s || s[|r|] == c
    decreases |s|
  {
    if s == [] || s[0] == c then [] else [s[0]] + BeforeFirst(s[1..], c)
  }

  /** The text before the first c of a + [c] + b, when a holds no c, is a. */
  lemma {:induction false} BeforeFirstJoin(a: string, c: char, b: string)
    requires c !in a
    ensures BeforeFirst(a + [c] + b, c) == a
  {
    if a != [] {
      assert (a + [c] + b)[1..] == a[1..] + [c] + b;
      BeforeFirstJoin(a[1..], c, b);
    } else {
      assert (a + [c] + b)[0] == c;
    }
  }

  /** Number of "%s" conversions in a format string, scanned from the left. */
  function Placeholders(fmt: string): nat
    decreases |fmt|
  {
    if |fmt| < 2 then 0
    else if fmt[..2] == "%s" then 1 + Placeholders(fmt[2..])
    else Placeholders(fmt[1..])
  }

  /** fmt % tuple(args) for a format whose only conversions are "%s". Python raises
      TypeError when the arguments are too few or too many: None here. */
  function Interpolate(fmt: string, args: seq<string>): (r: Option<string>)
    ensures r.Some? <==> Placeholders(fmt) == |args|
    decreases |fmt|
  {
    if |fmt| < 2 then
      (if args == [] then Some(fmt) else None)
    else if fmt[..2] == "%s" then
      (if args == [] then None
       else match Interpolate(fmt[2..], args[1..])
         case Some(rest) => Some(args[0] + rest)
         case None => None)
    else
      match Interpolate(fmt[1..], args)
      case Some(rest) => Some([fmt[0]] + rest)
      case None => None
  }

  /** Text without a '%' holds no conversion... */
  lemma {:induction false} PlaceholdersLiteral(t: string, rest: string)
    requires '%' !in t
    ensures Placeholders(t + rest) == Placeholders(rest)
  {
    if t != [] {
      PlaceholdersLiteral(t[1..], rest);
      assert (t + rest)[1..] == t[1..] + rest;
      if |t + rest| >= 2 {
        assert (t + rest)[..2] != "%s" by { assert (t + rest)[0] == t[0]; }
      }
    } else {
      assert t + rest == rest;
    }
  }

  /** ...and passes through interpolation unchanged. */
  lemma {:induction false} InterpolateLiteral(t: string, rest: string, args: seq<string>)
    requires '%' !in t
    ensures Interpolate(t + rest, args) ==
      match Interpolate(rest, args)
      case Some(x) => Some(t + x)
      case None => None
  {
    if t != [] {
      var u := t + rest;
      assert u[0] == t[0] && u[1..] == t[1..] + rest;
      if |u| >= 2 {
        assert u[..2] != "%s" by { assert u[..2][0] == t[0]; }
        InterpolateLiteral(t[1..], rest, args);
        match Interpolate(rest, args)
        case Some(x) => assert [t[0]] + (t[1..] + x) == t + x;
        case None =>
      } else {
        assert u == t && rest == [];
      }
    } else {
      assert t + rest == rest;
      match Interpolate(rest, args)
      case Some(x) => assert t + x == x;
      case None =>
    }
  }
}
