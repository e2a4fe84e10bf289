/**
 The JavaScript string built-ins the `.env` loader calls: `trim`,
 `startsWith`, `split` with a one-character separator, and
 `Array.prototype.join`, together with the search for the separator that
 `split` performs (written here as `IndexOf`). A JavaScript string is a sequence of UTF-16 code
 units; here it is a sequence of Unicode scalar values. Every separator and
 every white-space character involved lies in the Basic Multilingual Plane, so
 the two views split and trim alike.

 The functions are written as plain definitions; what each computes is stated
 by the lemma that follows it.
 */
module JsString {
  import opened Wrappers

  /** The characters `String.prototype.trim` removes: ECMAScript's WhiteSpace
      and LineTerminator code points. */
  predicate IsSpace(c: char) {
    || c == '\t' || c == '\n' || c == '\U{000B}' || c == '\U{000C}' || c == '\r'
    || c == ' ' || c == '\U{00A0}' || c == '\U{1680}'
    || ('\U{2000}' <= c <= '\U{200A}')
    || c == '\U{2028}' || c == '\U{2029}' || c == '\U{202F}' || c == '\U{205F}'
    || c == '\U{3000}' || c == '\U{FEFF}'
  }

  /** Every character of `s` is white space (true of the empty string). */
  predicate AllSpace(s: string) {
    forall i :: 0 <= i < |s| ==> IsSpace(s[i])
  }

  /** `String.prototype.trimStart`. */
  function TrimStart(s: string): string {
    if s != [] && IsSpace(s[0]) then TrimStart(s[1..]) else s
  }

  /** `String.prototype.trimEnd`. */
  function TrimEnd(s: string): string {
    if s != [] && IsSpace(s[|s| - 1]) then TrimEnd(s[..|s| - 1]) else s
  }

  /** `String.prototype.trim`. */
  function Trim(s: string): string {
    TrimEnd(TrimStart(s))
  }

  /** `TrimStart` leaves a suffix of `s`, removes only white space before it,
      and the suffix does not start with white space. */
  lemma {:induction false} TrimStartMeaning(s: string)
    ensures |TrimStart(s)| <= |s| && TrimStart(s) == s[|s| - |TrimStart(s)|..]
    ensures AllSpace(s[..|s| - |TrimStart(s)|])
    ensures TrimStart(s) == [] || !IsSpace(TrimStart(s)[0])
    decreases |s|
  {
    if s != [] && IsSpace(s[0]) {
      var r := TrimStart(s[1..]);
      TrimStartMeaning(s[1..]);
      assert s[1..][..|s[1..]| - |r|] == s[1..|s| - |r|];
      assert s[..|s| - |r|] == [s[0]] + s[1..|s| - |r|];
    }
  }

  /** `TrimEnd` leaves a prefix of `s`, removes only white space after it,
      and the prefix does not end with white space. */
  lemma {:induction false} TrimEndMeaning(s: string)
    ensures |TrimEnd(s)| <= |s| && TrimEnd(s) == s[..|TrimEnd(s)|]
    ensures AllSpace(s[|TrimEnd(s)|..])
    ensures TrimEnd(s) == [] || !IsSpace(TrimEnd(s)[|TrimEnd(s)| - 1])
    decreases |s|
  {
    if s != [] && IsSpace(s[|s| - 1]) {
      var r := TrimEnd(s[..|s| - 1]);
      TrimEndMeaning(s[..|s| - 1]);
      assert s[..|s| - 1][|r|..] == s[|r|..|s| - 1];
      assert s[|r|..] == s[|r|..|s| - 1] + [s[|s| - 1]];
    }
  }

  /** What trimming leaves: the slice `s[a..b]` with only white space on
      either side of it and none at its ends; it is empty exactly when `s` is
      all white space. */
  lemma TrimMeaning(s: string)
    ensures exists a, b :: 0 <= a <= b <= |s| && Trim(s) == s[a..b] && AllSpace(s[..a]) && AllSpace(s[b..])
    ensures Trim(s) == [] || (!IsSpace(Trim(s)[0]) && !IsSpace(Trim(s)[|Trim(s)| - 1]))
    ensures Trim(s) == [] <==> AllSpace(s)
  {
    var t := TrimStart(s);
    var r := TrimEnd(t);
    TrimStartMeaning(s);
    TrimEndMeaning(t);
    var a := |s| - |t|;
    var b := a + |r|;
    assert r == s[a..b];
    assert s[b..] == t[|r|..];
    assert AllSpace(s[..a]) && AllSpace(s[b..]);
    if r == [] {
      assert t == [];
      assert s[..a] == s;
    }
  }

  /** A string with no white space at either end is its own trim. */
  lemma TrimKeeps(s: string)
    requires s == [] || (!IsSpace(s[0]) && !IsSpace(s[|s| - 1]))
    ensures Trim(s) == s
  {
  }

  /** A string that starts with a non-space character keeps that character
      first when trimmed. */
  lemma TrimKeepsFirst(s: string)
    requires s != [] && !IsSpace(s[0])
    ensures Trim(s) != [] && Trim(s)[0] == s[0]
  {
    assert TrimStart(s) == s;
    TrimEndMeaning(s);
    assert s[0..] == s;
  }

  /** White space in front of `t` makes no difference to its trim. */
  lemma {:induction false} TrimSkipsLeading(p: string, t: string)
    requires AllSpace(p)
    ensures Trim(p + t) == Trim(t)
    decreases |p|
  {
    if p != [] {
      assert (p + t)[0] == p[0];
      assert (p + t)[1..] == p[1..] + t;
      TrimSkipsLeading(p[1..], t);
    } else {
      assert p + t == t;
    }
  }

  /** Text appended after a non-space character survives `TrimStart`. */
  lemma {:induction false} TrimStartAppend(t: string, w: string)
    requires !AllSpace(t)
    ensures TrimStart(t + w) == TrimStart(t) + w
    decreases |t|
  {
    assert (t + w)[0] == t[0];
    if IsSpace(t[0]) {
      assert (t + w)[1..] == t[1..] + w;
      TrimStartAppend(t[1..], w);
    }
  }

  /** Appended white space is removed by `TrimEnd`. */
  lemma {:induction false} TrimEndAppend(u: string, w: string)
    requires AllSpace(w)
    ensures TrimEnd(u + w) == TrimEnd(u)
    decreases |w|
  {
    if w == [] {
      assert u + w == u;
    } else {
      var s := u + w;
      assert s[|s| - 1] == w[|w| - 1];
      assert s[..|s| - 1] == u + w[..|w| - 1];
      TrimEndAppend(u, w[..|w| - 1]);
    }
  }

  /** White space after `t` makes no difference to its trim. */
  lemma TrimSkipsTrailing(t: string, w: string)
    requires AllSpace(w)
    ensures Trim(t + w) == Trim(t)
  {
    if AllSpace(t) {
      TrimMeaning(t);
      TrimMeaning(t + w);
    } else {
      TrimStartAppend(t, w);
      TrimEndAppend(TrimStart(t), w);
    }
  }

  /** `s.startsWith(c)` for a one-character string `c`. */
  predicate StartsWith(s: string, c: char) {
    |s| > 0 && s[0] == c
  }

  /** The first position of `c` in `s`, as `split` searches for its
      separator (the same answer as `s.indexOf(c)`, None standing for -1). */
  function IndexOf(s: string, c: char): (r: Option<nat>)
    ensures r.Some? ==> r.value < |s|
  {
    if s == [] then None
    else if s[0] == c then Some(0)
    else
      match IndexOf(s[1..], c)
      case None => None
      case Some(i) => Some(i + 1)
  }

  /** `IndexOf` finds the first occurrence, and finds none only when there
      is none. */
  lemma {:induction false} IndexOfMeaning(s: string, c: char)
    ensures IndexOf(s, c).None? <==> c !in s
    ensures IndexOf(s, c).Some? ==>
              var i := IndexOf(s, c).value;
              s[i] == c && c !in s[..i]
    decreases |s|
  {
    if s != [] && s[0] != c {
      IndexOfMeaning(s[1..], c);
      assert s == [s[0]] + s[1..];
      match IndexOf(s[1..], c)
      case None =>
      case Some(i) =>
        assert s[..i + 1] == [s[0]] + s[1..][..i];
    }
  }

  /** In `p + [c] + t` with no `c` in `p`, the first `c` is the one after `p`. */
  lemma IndexOfAfter(p: string, c: char, t: string)
    requires c !in p
    ensures IndexOf(p + [c] + t, c) == Some(|p|)
  {
    var s := p + [c] + t;
    IndexOfMeaning(s, c);
    assert s[..|p|] == p;
    assert s[|p|] == c;
  }

  /** Appending text after an occurrence of `c` does not move the first one. */
  lemma IndexOfAppend(s: string, t: string, c: char)
    requires c in s
    ensures IndexOf(s + t, c) == IndexOf(s, c)
  {
    IndexOfMeaning(s, c);
    IndexOfMeaning(s + t, c);
    var i := IndexOf(s, c).value;
    assert (s + t)[..i] == s[..i];
    assert (s + t)[i] == c;
  }

  /** Slicing `s + t` within `s`. */
  lemma SliceAppend(s: string, t: string, i: nat)
    requires i <= |s|
    ensures (s + t)[..i] == s[..i]
    ensures (s + t)[i..] == s[i..] + t
  {
  }

  /** `parts.join(sep)`; the join of no parts is the empty string. */
  function Join(parts: seq<string>, sep: char): string {
    if |parts| == 0 then []
    else if |parts| == 1 then parts[0]
    else parts[0] + [sep] + Join(parts[1..], sep)
  }

  /** `s.split(sep)`: the pieces of `s` between the occurrences of `sep`;
      there is always at least one. */
  function Split(s: string, sep: char): (parts: seq<string>)
    ensures |parts| >= 1
    decreases |s|
  {
    match IndexOf(s, sep)
    case None => [s]
    case Some(i) => [s[..i]] + Split(s[i + 1..], sep)
  }

  /** No piece holds the separator, and joining the pieces with it gives
      back `s`. */
  lemma {:induction false} SplitMeaning(s: string, sep: char)
    ensures forall j :: 0 <= j < |Split(s, sep)| ==> sep !in Split(s, sep)[j]
    ensures Join(Split(s, sep), sep) == s
    decreases |s|
  {
    IndexOfMeaning(s, sep);
    match IndexOf(s, sep)
    case None =>
    case Some(i) =>
      var rest := Split(s[i + 1..], sep);
      SplitMeaning(s[i + 1..], sep);
      var parts := [s[..i]] + rest;
      assert Split(s, sep) == parts;
      assert parts[1..] == rest;
      assert Join(parts, sep) == s[..i] + [sep] + Join(rest, sep);
      assert s == s[..i] + [sep] + s[i + 1..];
      forall j | 0 <= j < |parts| ensures sep !in parts[j] {
        if j > 0 { assert parts[j] == rest[j - 1]; }
      }
  }

  /** There is a second piece exactly when `s` holds the separator. */
  lemma SplitSingle(s: string, sep: char)
    ensures |Split(s, sep)| == 1 <==> sep !in s
  {
    IndexOfMeaning(s, sep);
    match IndexOf(s, sep)
    case None =>
    case Some(i) => SplitAtFirst(s, sep, i);
  }

  /** The first piece is what precedes the first separator, and the other
      pieces, joined again, are what follows it. */
  lemma SplitAtFirst(s: string, sep: char, i: nat)
    requires IndexOf(s, sep) == Some(i)
    ensures Split(s, sep)[0] == s[..i]
    ensures Join(Split(s, sep)[1..], sep) == s[i + 1..]
    ensures |Split(s, sep)| >= 2
  {
    SplitMeaning(s[i + 1..], sep);
    assert Split(s, sep) == [s[..i]] + Split(s[i + 1..], sep);
    assert Split(s, sep)[1..] == Split(s[i + 1..], sep);
  }

  /** `split` inverts `join`: any non-empty list of pieces free of the
      separator is what splitting their join gives back. */
  lemma {:induction false} SplitJoin(parts: seq<string>, sep: char)
    requires |parts| >= 1
    requires forall j :: 0 <= j < |parts| ==> sep !in parts[j]
    ensures Split(Join(parts, sep), sep) == parts
    decreases |parts|
  {
    if |parts| == 1 {
      assert Join(parts, sep) == parts[0];
      IndexOfMeaning(parts[0], sep);
    } else {
      var s := Join(parts, sep);
      var p := parts[0];
      assert s == p + [sep] + Join(parts[1..], sep);
      IndexOfAfter(p, sep, Join(parts[1..], sep));
      assert s[..|p|] == p;
      assert s[|p| + 1..] == Join(parts[1..], sep);
      SplitJoin(parts[1..], sep);
      assert parts == [p] + parts[1..];
    }
  }
}
