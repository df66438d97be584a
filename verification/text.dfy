/**
 * The few pieces of Python's `str` that the pipeline relies on: `endswith`,
 * `split` with a one-character separator, `rindex`, and `int()` on a string.
 * Characters are compared as code points; `int()` is modelled for ASCII digits.
 */
module Text {
  import opened Wrappers

  /** `s.endswith(suffix)` */
  predicate EndsWith(s: string, suffix: string) {
    |suffix| <= |s| && s[|s| - |suffix|..] == suffix
  }

  /** `s.startswith(prefix)` */
  predicate StartsWith(s: string, prefix: string) {
    |prefix| <= |s| && s[..|prefix|] == prefix
  }

  /** `s.split(c)[0]`: the text before the first `c`, or all of `s` when it holds no `c`. */
  function Before(s: string, c: char): (r: string)
    ensures r <= s && c !in r
    ensures |r| < |s| ==> s[|r|] == c
  {
    if s == [] || s[0] == c then [] else [s[0]] + Before(s[1..], c)
  }

  lemma {:induction false} BeforeUnique(p: string, c: char, rest: string)
    requires c !in p
    ensures Before(p + [c] + rest, c) == p
    ensures Before(p, c) == p
  {
    if p != [] {
      assert (p + [c] + rest)[1..] == p[1..] + [c] + rest;
      BeforeUnique(p[1..], c, rest);
    }
  }

  /** `s.split(c)` for a one-character separator `c`. */
  function Split(s: string, c: char): (parts: seq<string>)
    ensures |parts| >= 1 && parts[0] == Before(s, c)
    ensures forall p :: p in parts ==> c !in p
    decreases |s|
  {
    var head := Before(s, c);
    if |head| == |s| then [s] else [head] + Split(s[|head| + 1..], c)
  }

  /** `c.join(parts)`, the inverse of `Split`. */
  function Join(parts: seq<string>, c: char): string
    requires |parts| >= 1
  {
    if |parts| == 1 then parts[0] else parts[0] + [c] + Join(parts[1..], c)
  }

  /** Joining the pieces of a split gives the string back. */
  lemma {:induction false} JoinSplit(s: string, c: char)
    ensures Join(Split(s, c), c) == s
    decreases |s|
  {
    if |Before(s, c)| < |s| {
      var head, tail := SplitStep(s, c);
      JoinCons(head, Split(tail, c), c);
      JoinSplit(tail, c);
    }
  }

  /** A string with a separator splits into the text before it and the parts of the rest. */
  lemma SplitStep(s: string, c: char) returns (head: string, tail: string)
    requires |Before(s, c)| < |s|
    ensures head == Before(s, c) && |tail| < |s|
    ensures s == head + [c] + tail
    ensures Split(s, c) == [head] + Split(tail, c)
  {
    head := Before(s, c);
    tail := s[|head| + 1..];
    assert s == s[..|head|] + [s[|head|]] + tail;
  }

  /** Joining one more part in front puts it and a separator before the rest. */
  lemma JoinCons(head: string, rest: seq<string>, c: char)
    requires |rest| >= 1
    ensures Join([head] + rest, c) == head + [c] + Join(rest, c)
  {
    assert ([head] + rest)[1..] == rest;
  }

  /** Splitting a join of separator-free pieces gives the pieces back. */
  lemma {:induction false} SplitJoin(parts: seq<string>, c: char)
    requires |parts| >= 1
    requires forall p :: p in parts ==> c !in p
    ensures Split(Join(parts, c), c) == parts
  {
    if |parts| == 1 {
      BeforeUnique(parts[0], c, []);
    } else {
      var tail := parts[1..];
      assert forall p :: p in tail ==> p in parts;
      assert Join(parts, c) == parts[0] + [c] + Join(tail, c);
      SplitCons(parts[0], Join(tail, c), c);
      SplitJoin(tail, c);
      assert parts == [parts[0]] + tail;
    }
  }

  /** A separator-free piece, the separator, then anything: the piece is the first part. */
  lemma SplitCons(head: string, rest: string, c: char)
    requires c !in head
    ensures Split(head + [c] + rest, c) == [head] + Split(rest, c)
  {
    var s := head + [c] + rest;
    BeforeUnique(head, c, rest);
    assert s[|head| + 1..] == rest;
  }

  /** A string with exactly one separator is its two pieces around it. */
  lemma SplitInTwo(s: string, c: char)
    requires |Split(s, c)| == 2
    ensures s == Split(s, c)[0] + [c] + Split(s, c)[1]
  {
    JoinSplit(s, c);
    var parts := Split(s, c);
    assert parts[1..] == [parts[1]];
  }

  /** Two separator-free pieces joined by the separator split back into those two. */
  lemma SplitOfTwo(a: string, b: string, c: char)
    requires c !in a && c !in b
    ensures Split(a + [c] + b, c) == [a, b]
  {
    SplitJoin([a, b], c);
    assert [a, b][1..] == [b];
  }

  /** The number of pieces is one more than the number of separators. */
  lemma {:induction false} SplitCount(s: string, c: char)
    ensures |Split(s, c)| == multiset(s)[c] + 1
    decreases |s|
  {
    var head := Before(s, c);
    if |head| == |s| {
      assert head == s;
      assert c !in multiset(s);
    } else {
      var tail := s[|head| + 1..];
      assert s == head + [c] + tail;
      assert multiset(s) == multiset(head) + multiset{c} + multiset(tail);
      assert c !in multiset(head);
      SplitCount(tail, c);
    }
  }

  /** `s.rindex(c)`, with `None` where Python raises. */
  function RIndex(s: string, c: char): (r: Option<nat>)
    ensures r.None? <==> c !in s
    ensures r.Some? ==> r.value < |s| && s[r.value] == c && c !in s[r.value + 1..]
  {
    if s == [] then None
    else if s[|s| - 1] == c then Some(|s| - 1)
    else RIndex(s[..|s| - 1], c)
  }

  /** An occurrence of `c` with none after it is the one `RIndex` finds. */
  lemma RIndexOfLast(s: string, c: char, i: nat)
    requires i < |s| && s[i] == c && c !in s[i + 1..]
    ensures RIndex(s, c) == Some(i)
  {
    assert c in s by { assert s[i] == c; }
    var r := RIndex(s, c).value;
    assert forall k :: i < k < |s| ==> s[k] == s[i + 1..][k - i - 1];
    assert forall k :: r < k < |s| ==> s[k] == s[r + 1..][k - r - 1];
  }

  predicate IsDigit(ch: char) { '0' <= ch <= '9' }

  predicate AllDigits(s: string) { forall i :: 0 <= i < |s| ==> IsDigit(s[i]) }

  /** The ASCII whitespace `int()` strips: space and `\t` through `\r` (not `\x1c`-`\x1f`, although `str.isspace` holds for them). */
  predicate IsSpace(ch: char) {
    ch == ' ' || '\t' <= ch <= '\r'
  }

  /** The value of a run of decimal digits, most significant first. */
  function DigitsValue(ds: string): nat
    requires AllDigits(ds)
  {
    if ds == [] then 0
    else 10 * DigitsValue(ds[..|ds| - 1]) + (ds[|ds| - 1] as int - '0' as int)
  }

  function TrimStart(s: string): (r: string)
    ensures r == [] || !IsSpace(r[0])
  {
    if s != [] && IsSpace(s[0]) then TrimStart(s[1..]) else s
  }

  function TrimEnd(s: string): (r: string)
    ensures r == [] || !IsSpace(r[|r| - 1])
  {
    if s != [] && IsSpace(s[|s| - 1]) then TrimEnd(s[..|s| - 1]) else s
  }

  /** `int(s)` on a string: surrounding whitespace, an optional sign, then decimal digits. */
  function ParseInt(s: string): (r: Option<int>)
    ensures r.Some? && r.value < 0 ==> '-' in s
  {
    var r := ReadSigned(TrimEnd(TrimStart(s)));
    if r.Some? && r.value < 0 then
      MinusInSource(s);
      r
    else r
  }

  /** What `int()` reads once the whitespace is stripped: an optional sign, then decimal digits. */
  function ReadSigned(t: string): (r: Option<int>)
    ensures r.Some? && r.value < 0 ==> t != [] && t[0] == '-'
  {
    var negative := t != [] && t[0] == '-';
    var digits := if t != [] && (t[0] == '-' || t[0] == '+') then t[1..] else t;
    if digits != [] && AllDigits(digits) then
      var v: int := DigitsValue(digits);
      Some(if negative then -v else v)
    else None
  }

  /** The sign `int()` sees after stripping whitespace is a character of the text. */
  lemma MinusInSource(s: string)
    requires TrimEnd(TrimStart(s)) != [] && TrimEnd(TrimStart(s))[0] == '-'
    ensures '-' in s
  {
    var a := SpacesBefore(s);
    var m := KeptBefore(s[a..]);
    assert TrimEnd(TrimStart(s)) == s[a..][..m];
    assert s[a] == '-';
  }

  predicate AllSpaces(a: string) { forall k :: 0 <= k < |a| ==> IsSpace(a[k]) }

  /** The optional sign `int()` accepts before the digits. */
  predicate IsSign(g: string) { g == "" || g == "+" || g == "-" }

  function Signed(g: string, v: nat): int { if g == "-" then -(v as int) else v as int }

  /**
   * `s` is an integer literal as `int()` reads it: whitespace `a`, an
   * optional sign `g`, a non-empty run of digits `ds`, whitespace `b`.
   */
  predicate IntText(s: string, a: string, g: string, ds: string, b: string) {
    s == a + g + ds + b && AllSpaces(a) && AllSpaces(b) && IsSign(g) && ds != [] && AllDigits(ds)
  }

  lemma {:induction false} TrimStartSpaces(a: string, rest: string)
    requires AllSpaces(a) && (rest == [] || !IsSpace(rest[0]))
    ensures TrimStart(a + rest) == rest
  {
    if a == [] {
      assert a + rest == rest;
    } else {
      assert (a + rest)[1..] == a[1..] + rest;
      TrimStartSpaces(a[1..], rest);
    }
  }

  lemma {:induction false} TrimEndSpaces(rest: string, b: string)
    requires AllSpaces(b) && (rest == [] || !IsSpace(rest[|rest| - 1]))
    ensures TrimEnd(rest + b) == rest
  {
    if b == [] {
      assert rest + b == rest;
    } else {
      var init := b[..|b| - 1];
      assert (rest + b)[..|rest + b| - 1] == rest + init;
      TrimEndSpaces(rest, init);
    }
  }

  /** Every integer literal, whitespace-padded and signed or not, is read as its signed decimal value. */
  lemma ParseIntOfText(a: string, g: string, ds: string, b: string)
    requires IntText(a + g + ds + b, a, g, ds, b)
    ensures ParseInt(a + g + ds + b) == Some(Signed(g, DigitsValue(ds)))
  {
    var t := g + ds;
    assert a + g + ds + b == a + (t + b);
    assert !IsSpace(t[0]) && !IsSpace(t[|t| - 1]) by {
      assert IsDigit(ds[0]) && IsDigit(ds[|ds| - 1]);
      assert t[|t| - 1] == ds[|ds| - 1];
    }
    TrimEndSpaces(t, b);
    TrimStartSpaces(a, t + b);
    ReadSignedOf(g, ds);
  }

  lemma ReadSignedOf(g: string, ds: string)
    requires IsSign(g) && ds != [] && AllDigits(ds)
    ensures ReadSigned(g + ds) == Some(Signed(g, DigitsValue(ds)))
  {
    if g == "" {
      assert g + ds == ds && IsDigit(ds[0]);
    } else {
      assert (g + ds)[1..] == ds;
    }
  }

  /** Conversely, `int()` accepts only integer literals, and reads each as its signed value. */
  lemma ParseIntAccepts(s: string)
    requires ParseInt(s).Some?
    ensures exists a, g, ds, b :: IntText(s, a, g, ds, b) && ParseInt(s) == Some(Signed(g, DigitsValue(ds)))
  {
    var a, t, b := TrimmedPieces(s);
    assert ReadSigned(t) == ParseInt(s);
    var g, ds := ReadSignedAccepts(t);
    LiteralOfPieces(s, a, t, b, g, ds);
    ParseIntOfText(a, g, ds, b);
  }

  lemma LiteralOfPieces(s: string, a: string, t: string, b: string, g: string, ds: string)
    requires s == a + t + b && AllSpaces(a) && AllSpaces(b)
    requires t == g + ds && IsSign(g) && ds != [] && AllDigits(ds)
    ensures IntText(s, a, g, ds, b)
  {
    assert s == a + g + ds + b;
  }

  /** Text `ReadSigned` accepts is a sign and a non-empty digit run. */
  lemma ReadSignedAccepts(t: string) returns (g: string, ds: string)
    requires ReadSigned(t).Some?
    ensures t == g + ds && IsSign(g) && ds != [] && AllDigits(ds)
  {
    g := if t[0] == '-' || t[0] == '+' then t[..1] else [];
    ds := t[|g|..];
    assert t == g + ds;
  }

  /** The whitespace `int()` strips, the text it reads, and the whitespace after it. */
  lemma TrimmedPieces(s: string) returns (a: string, t: string, b: string)
    ensures s == a + t + b && AllSpaces(a) && AllSpaces(b) && TrimEnd(TrimStart(s)) == t
  {
    var rest;
    a, rest := LeadingSpaces(s);
    t, b := TrailingSpaces(rest);
  }

  lemma LeadingSpaces(s: string) returns (a: string, rest: string)
    ensures s == a + rest && AllSpaces(a) && TrimStart(s) == rest
  {
    var i := SpacesBefore(s);
    a, rest := s[..i], s[i..];
    forall k | 0 <= k < |a| ensures IsSpace(a[k]) {
      assert a[k] == s[k];
    }
  }

  lemma TrailingSpaces(s: string) returns (t: string, b: string)
    ensures s == t + b && AllSpaces(b) && TrimEnd(s) == t
  {
    var m := KeptBefore(s);
    t, b := s[..m], s[m..];
    forall k | 0 <= k < |b| ensures IsSpace(b[k]) {
      assert b[k] == s[m + k];
    }
  }

  /** `int()` reads a plain run of digits as its decimal value. */
  lemma ParseIntDigits(ds: string)
    requires ds != [] && AllDigits(ds)
    ensures ParseInt(ds) == Some(DigitsValue(ds))
  {
    assert !IsSpace(ds[0]) && !IsSpace(ds[|ds| - 1]);
  }

  /**
   * `int()` does not strip the separators `\x1c`-`\x1f`: a digit run behind
   * one is rejected, although `str.isspace` holds for them.
   */
  lemma ParseIntKeepsSeparator(c: char, ds: string)
    requires '\U{1C}' <= c <= '\U{1F}' && ds != [] && AllDigits(ds)
    ensures ParseInt([c] + ds).None?
  {
    var s := [c] + ds;
    assert TrimStart(s) == s;
    assert s[|s| - 1] == ds[|ds| - 1];
    assert TrimEnd(s) == s;
    assert !IsDigit(s[0]);
  }

  /** `int()` rejects text with no digit in it. */
  lemma ParseIntNoDigits(s: string)
    requires forall i :: 0 <= i < |s| ==> !IsDigit(s[i])
    ensures ParseInt(s).None?
  {
    var t := TrimEnd(TrimStart(s));
    var a := SpacesBefore(s);
    var m := KeptBefore(s[a..]);
    assert t == s[a..][..m];
    var digits := if t != [] && (t[0] == '-' || t[0] == '+') then t[1..] else t;
    if digits != [] {
      var p := if t != [] && (t[0] == '-' || t[0] == '+') then a + 1 else a;
      assert digits[0] == s[p];
    }
  }

  /** The number of leading whitespace characters `int()` strips. */
  function SpacesBefore(s: string): (i: nat)
    ensures i <= |s| && TrimStart(s) == s[i..]
    ensures forall k :: 0 <= k < i ==> IsSpace(s[k])
  {
    if s != [] && IsSpace(s[0]) then
      var i := SpacesBefore(s[1..]);
      assert s[1..][i..] == s[i + 1..];
      assert forall k :: 1 <= k < i + 1 ==> s[k] == s[1..][k - 1];
      i + 1
    else 0
  }

  /** The length of what is left after `int()` strips trailing whitespace. */
  function KeptBefore(s: string): (j: nat)
    ensures j <= |s| && TrimEnd(s) == s[..j]
    ensures forall k :: j <= k < |s| ==> IsSpace(s[k])
  {
    if s != [] && IsSpace(s[|s| - 1]) then
      var init := s[..|s| - 1];
      var j := KeptBefore(init);
      assert init[..j] == s[..j];
      j
    else |s|
  }
}
