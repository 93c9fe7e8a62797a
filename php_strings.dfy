/** The PHP string built-ins the parser relies on: strpos, explode, trim,
    array_filter over strings, strtolower, strtoupper and a one-character
    str_replace. A Dafny `char` stands for one byte of a PHP string. */
module PhpStrings {
  import opened Wrappers

  /** The string `t` occurs in `s` starting at index `i`. */
  predicate OccursAt(s: string, t: string, i: int) {
    0 <= i && i + |t| <= |s| && s[i..i + |t|] == t
  }

  lemma OccursAtTail(s: string, t: string)
    requires |s| > 0
    ensures forall j :: 0 <= j && OccursAt(s[1..], t, j) ==> OccursAt(s, t, j + 1)
    ensures forall j :: 1 <= j && OccursAt(s, t, j) ==> OccursAt(s[1..], t, j - 1)
  {
    forall j | 1 <= j && OccursAt(s, t, j)
      ensures OccursAt(s[1..], t, j - 1)
    {
      assert s[1..][j - 1..j - 1 + |t|] == s[j..j + |t|];
    }
    forall j | 0 <= j && OccursAt(s[1..], t, j)
      ensures OccursAt(s, t, j + 1)
    {
      assert s[1..][j..j + |t|] == s[j + 1..j + 1 + |t|];
    }
  }

  /** A one-character needle occurs exactly where that character stands. */
  lemma OccursAtChar(s: string, c: char)
    ensures forall j :: 0 <= j < |s| ==> (OccursAt(s, [c], j) <==> s[j] == c)
  {
    forall j | 0 <= j < |s|
      ensures OccursAt(s, [c], j) <==> s[j] == c
    {
      assert s[j..j + 1] == [s[j]];
    }
  }

  /** strpos: the index of the first occurrence of a non-empty needle. */
  function StrPos(s: string, t: string): (r: Option<nat>)
    requires |t| > 0
    ensures r.Some? ==> OccursAt(s, t, r.value)
    ensures r.Some? ==> forall j :: 0 <= j < r.value ==> !OccursAt(s, t, j)
    ensures r.None? ==> forall j :: 0 <= j ==> !OccursAt(s, t, j)
    decreases |s|
  {
    if |s| < |t| then None
    else if s[..|t|] == t then Some(0)
    else
      OccursAtTail(s, t);
      match StrPos(s[1..], t)
      case None => None
      case Some(k) => Some(k + 1)
  }

  /** explode(sep, s, 2) on a string that contains `sep`: the text before and
      after its first occurrence. None when `sep` does not occur (the parser
      tests this with strpos before exploding). */
  function SplitFirst(s: string, sep: string): (r: Option<(string, string)>)
    requires |sep| > 0
    ensures r.Some? ==> s == r.value.0 + sep + r.value.1
    ensures r.Some? ==> forall j :: 0 <= j < |r.value.0| ==> !OccursAt(s, sep, j)
    ensures r.None? ==> forall j :: 0 <= j ==> !OccursAt(s, sep, j)
  {
    match StrPos(s, sep)
    case None => None
    case Some(k) =>
      assert s[k..k + |sep|] == sep;
      assert s == s[..k] + s[k..k + |sep|] + s[k + |sep|..];
      Some((s[..k], s[k + |sep|..]))
  }

  /** explode(c, s, 2) for a one-character separator: the text before and
      after the first `c`, or None when `s` has no `c`. */
  function SplitAtChar(s: string, c: char): (r: Option<(string, string)>)
    ensures r.Some? ==> s == r.value.0 + [c] + r.value.1 && c !in r.value.0
    ensures r.None? <==> c !in s
    decreases |s|
  {
    if s == [] then None
    else if s[0] == c then Some(([], s[1..]))
    else
      match SplitAtChar(s[1..], c)
      case None => None
      case Some((before, after)) => Some(([s[0]] + before, after))
  }

  /** implode(c, parts): the inverse of Explode. */
  function Join(parts: seq<string>, c: char): string
    decreases |parts|
  {
    if |parts| == 0 then ""
    else if |parts| == 1 then parts[0]
    else parts[0] + [c] + Join(parts[1..], c)
  }

  /** explode(c, s) with no limit: the pieces between the occurrences of `c`,
      in order. Gives [""] for the empty string, as PHP does. */
  function Explode(s: string, c: char): (r: seq<string>)
    ensures |r| > 0
    ensures Join(r, c) == s
    decreases |s|
  {
    match SplitAtChar(s, c)
    case None => [s]
    case Some((before, after)) => [before] + Explode(after, c)
  }

  /** No piece of an explode holds the separator. */
  lemma {:induction false} ExplodePieces(s: string, c: char)
    ensures forall i :: 0 <= i < |Explode(s, c)| ==> c !in Explode(s, c)[i]
    decreases |s|
  {
    match SplitAtChar(s, c)
    case None =>
    case Some((before, after)) =>
      ExplodePieces(after, c);
      var r := Explode(s, c);
      assert forall i :: 1 <= i < |r| ==> r[i] == Explode(after, c)[i - 1];
  }

  /** Exploding a join of pieces free of `c` gives the pieces back. */
  lemma {:induction false} ExplodeJoin(parts: seq<string>, c: char)
    requires |parts| > 0
    requires forall i :: 0 <= i < |parts| ==> c !in parts[i]
    ensures Explode(Join(parts, c), c) == parts
    decreases |parts|
  {
    if |parts| > 1 {
      var s := Join(parts, c);
      assert s == parts[0] + [c] + Join(parts[1..], c);
      var sp := SplitAtChar(s, c);
      assert sp.Some? by { assert s[|parts[0]|] == c; }
      var (before, after) := sp.value;
      SplitUnique(parts[0], Join(parts[1..], c), before, after, c);
      ExplodeJoin(parts[1..], c);
    }
  }

  /** Joining two runs of pieces puts one separator between their joins. */
  lemma {:induction false} JoinAppend(xs: seq<string>, ys: seq<string>, c: char)
    requires |xs| > 0 && |ys| > 0
    ensures Join(xs + ys, c) == Join(xs, c) + [c] + Join(ys, c)
    decreases |xs|
  {
    if |xs| > 1 {
      assert (xs + ys)[1..] == xs[1..] + ys;
      JoinAppend(xs[1..], ys, c);
    } else {
      assert (xs + ys)[1..] == ys;
    }
  }

  /** explode distributes over a separator: the pieces of each side, in order. */
  lemma ExplodeAppend(a: string, b: string, c: char)
    ensures Explode(a + [c] + b, c) == Explode(a, c) + Explode(b, c)
  {
    var parts := Explode(a, c) + Explode(b, c);
    JoinAppend(Explode(a, c), Explode(b, c), c);
    ExplodePieces(a, c);
    ExplodePieces(b, c);
    forall i | 0 <= i < |parts| ensures c !in parts[i] {
      if i >= |Explode(a, c)| {
        assert parts[i] == Explode(b, c)[i - |Explode(a, c)|];
      }
    }
    ExplodeJoin(parts, c);
  }

  /** Splitting at the first `c` is determined by a prefix free of `c`. */
  lemma SplitUnique(a: string, b: string, a': string, b': string, c: char)
    requires a + [c] + b == a' + [c] + b'
    requires c !in a && c !in a'
    ensures a == a' && b == b'
  {
    var s := a + [c] + b;
    assert s[|a|] == c && s[|a'|] == c;
    assert forall i :: 0 <= i < |a| ==> s[i] == a[i];
    assert forall i :: 0 <= i < |a'| ==> s[i] == a'[i];
    assert |a| == |a'|;
    assert a == s[..|a|] == a';
    assert b == s[|a| + 1..] == b';
  }

  /** Splitting at the last `c` is determined by a suffix free of `c`. */
  lemma SplitUniqueLast(a: string, b: string, a': string, b': string, c: char)
    requires a + [c] + b == a' + [c] + b'
    requires c !in b && c !in b'
    ensures a == a' && b == b'
  {
    var s := a + [c] + b;
    var n := |s|;
    assert s[n - 1 - |b|] == c && s[n - 1 - |b'|] == c;
    assert forall i :: 0 <= i < |b| ==> s[n - |b| + i] == b[i];
    assert forall i :: 0 <= i < |b'| ==> s[n - |b'| + i] == b'[i];
    assert |b| == |b'|;
    assert a == s[..|a|] == a';
    assert b == s[|a| + 1..] == b';
  }

  /** The index of the last occurrence of `c` (strrpos). */
  function LastIndexOf(s: string, c: char): (r: Option<nat>)
    ensures r.Some? ==> r.value < |s| && s[r.value] == c && c !in s[r.value + 1..]
    ensures r.None? ==> c !in s
    decreases |s|
  {
    if s == [] then None
    else if s[|s| - 1] == c then Some(|s| - 1)
    else
      var r := LastIndexOf(s[..|s| - 1], c);
      assert r.Some? ==> s[r.value + 1..] == s[..|s| - 1][r.value + 1..] + [s[|s| - 1]];
      assert r.None? ==> s == s[..|s| - 1] + [s[|s| - 1]];
      r
  }

  /** The characters PHP's trim removes by default: " \t\n\r\0\x0B". */
  predicate IsTrimChar(c: char) {
    c == ' ' || c == '\t' || c == '\n' || c == '\r' || c == '\0' || c == '\U{B}'
  }

  predicate AllTrimChars(s: string) {
    forall i :: 0 <= i < |s| ==> IsTrimChar(s[i])
  }

  /** Neither end of `s` is a trim character. */
  predicate IsTrimmed(s: string) {
    s == [] || (!IsTrimChar(s[0]) && !IsTrimChar(s[|s| - 1]))
  }

  function TrimLeft(s: string): (r: string)
    ensures |r| <= |s|
    decreases |s|
  {
    if s != [] && IsTrimChar(s[0]) then TrimLeft(s[1..]) else s
  }

  /** TrimLeft drops a prefix of trim characters and stops at the first other
      character. */
  lemma {:induction false} TrimLeftShape(s: string)
    ensures TrimLeft(s) == s[|s| - |TrimLeft(s)|..]
    ensures AllTrimChars(s[..|s| - |TrimLeft(s)|])
    ensures TrimLeft(s) == [] || !IsTrimChar(TrimLeft(s)[0])
    decreases |s|
  {
    if s != [] && IsTrimChar(s[0]) {
      TrimLeftShape(s[1..]);
      var r := TrimLeft(s);
      assert s[..|s| - |r|] == [s[0]] + s[1..][..|s| - 1 - |r|];
    }
  }

  function TrimRight(s: string): (r: string)
    ensures |r| <= |s|
    decreases |s|
  {
    if s != [] && IsTrimChar(s[|s| - 1]) then TrimRight(s[..|s| - 1]) else s
  }

  /** TrimRight drops a suffix of trim characters and stops at the last other
      character. */
  lemma {:induction false} TrimRightShape(s: string)
    ensures TrimRight(s) == s[..|TrimRight(s)|]
    ensures AllTrimChars(s[|TrimRight(s)|..])
    ensures TrimRight(s) == [] || !IsTrimChar(TrimRight(s)[|TrimRight(s)| - 1])
    decreases |s|
  {
    if s != [] && IsTrimChar(s[|s| - 1]) {
      TrimRightShape(s[..|s| - 1]);
      var r := TrimRight(s);
      assert s[|r|..] == s[..|s| - 1][|r|..] + [s[|s| - 1]];
    }
  }

  /** trim($s): `s` without its leading and trailing trim characters. */
  function Trim(s: string): (r: string)
    ensures |r| <= |s| && IsTrimmed(r)
  {
    var right := TrimRight(s);
    TrimRightShape(s);
    TrimLeftShape(right);
    TrimLeft(right)
  }

  /** What Trim removes: a run of trim characters at each end. */
  lemma TrimShape(s: string)
    ensures var r := Trim(s);
      exists k :: 0 <= k <= |s| - |r| && r == s[k..k + |r|]
                  && AllTrimChars(s[..k]) && AllTrimChars(s[k + |r|..])
  {
    var right := TrimRight(s);
    TrimRightShape(s);
    TrimLeftShape(right);
    MiddlePart(s, right, TrimLeft(right));
  }

  /** A suffix `r` of a prefix `right` of `s` sits in `s` between the two
      cut-off parts. */
  lemma MiddlePart(s: string, right: string, r: string)
    requires |right| <= |s| && right == s[..|right|] && AllTrimChars(s[|right|..])
    requires |r| <= |right| && r == right[|right| - |r|..] && AllTrimChars(right[..|right| - |r|])
    ensures exists k :: 0 <= k <= |s| - |r| && r == s[k..k + |r|]
                        && AllTrimChars(s[..k]) && AllTrimChars(s[k + |r|..])
  {
    var k := |right| - |r|;
    assert r == s[k..k + |r|];
    assert s[..k] == right[..k];
    assert s[k + |r|..] == s[|right|..];
  }

  lemma {:induction false} TrimRightAll(s: string)
    requires AllTrimChars(s)
    ensures TrimRight(s) == []
    decreases |s|
  {
    if s != [] {
      TrimRightAll(s[..|s| - 1]);
    }
  }

  lemma {:induction false} TrimRightExact(p: string, b: string)
    requires AllTrimChars(b)
    requires p != [] && !IsTrimChar(p[|p| - 1])
    ensures TrimRight(p + b) == p
    decreases |b|
  {
    if b == [] {
      assert p + b == p;
    } else {
      assert (p + b)[..|p + b| - 1] == p + b[..|b| - 1];
      TrimRightExact(p, b[..|b| - 1]);
    }
  }

  lemma {:induction false} TrimLeftExact(a: string, x: string)
    requires AllTrimChars(a)
    requires x == [] || !IsTrimChar(x[0])
    ensures TrimLeft(a + x) == x
    decreases |a|
  {
    if a == [] {
      assert a + x == x;
    } else {
      assert (a + x)[1..] == a[1..] + x;
      TrimLeftExact(a[1..], x);
    }
  }

  /** Trim is determined by its contract: whatever sits between two runs of
      trim characters and has no trim character at either end is the result. */
  lemma TrimExact(a: string, x: string, b: string)
    requires AllTrimChars(a) && AllTrimChars(b) && IsTrimmed(x)
    ensures Trim(a + x + b) == x
  {
    if x == [] {
      assert a + x + b == a + b;
      TrimRightAll(a + b);
    } else {
      assert a + x + b == (a + x) + b;
      TrimRightExact(a + x, b);
      TrimLeftExact(a, x);
    }
  }

  lemma TrimIdempotent(s: string)
    ensures Trim(Trim(s)) == Trim(s)
  {
    var t := Trim(s);
    var e: string := [];
    assert e + t + e == t;
    TrimExact(e, t, e);
  }

  /** array_map('trim', xs). */
  function TrimAll(xs: seq<string>): (r: seq<string>)
    ensures |r| == |xs|
    decreases |xs|
  {
    if xs == [] then [] else [Trim(xs[0])] + TrimAll(xs[1..])
  }

  /** Each string is trimmed where it stands. */
  lemma {:induction false} TrimAllAt(xs: seq<string>)
    ensures forall i :: 0 <= i < |xs| ==> TrimAll(xs)[i] == Trim(xs[i])
    decreases |xs|
  {
    if xs != [] {
      TrimAllAt(xs[1..]);
      assert forall i :: 1 <= i < |xs| ==> TrimAll(xs)[i] == TrimAll(xs[1..])[i - 1] && xs[i] == xs[1..][i - 1];
    }
  }

  /** array_map('trim', ...) distributes over concatenation. */
  lemma {:induction false} TrimAllAppend(xs: seq<string>, ys: seq<string>)
    ensures TrimAll(xs + ys) == TrimAll(xs) + TrimAll(ys)
    decreases |xs|
  {
    if xs != [] {
      assert (xs + ys)[1..] == xs[1..] + ys;
      TrimAllAppend(xs[1..], ys);
    } else {
      assert xs + ys == ys;
    }
  }

  /** The strings PHP converts to false: "" and "0". */
  predicate IsFalsy(s: string) {
    s == "" || s == "0"
  }

  /** array_filter($xs) without a callback: the non-falsy strings, in order. */
  function DropFalsy(xs: seq<string>): (r: seq<string>)
    ensures |r| <= |xs|
    decreases |xs|
  {
    if xs == [] then []
    else (if IsFalsy(xs[0]) then [] else [xs[0]]) + DropFalsy(xs[1..])
  }

  /** DropFalsy keeps exactly the non-falsy strings. */
  lemma {:induction false} DropFalsyMembers(xs: seq<string>)
    ensures forall x :: x in DropFalsy(xs) <==> x in xs && !IsFalsy(x)
    decreases |xs|
  {
    if xs != [] {
      DropFalsyMembers(xs[1..]);
      assert xs == [xs[0]] + xs[1..];
    }
  }

  /** DropFalsy keeps relative order: it distributes over concatenation. */
  lemma {:induction false} DropFalsyAppend(xs: seq<string>, ys: seq<string>)
    ensures DropFalsy(xs + ys) == DropFalsy(xs) + DropFalsy(ys)
    decreases |xs|
  {
    if xs != [] {
      assert (xs + ys)[1..] == xs[1..] + ys;
      DropFalsyAppend(xs[1..], ys);
    } else {
      assert xs + ys == ys;
    }
  }

  function LowerChar(c: char): char {
    if 'A' <= c <= 'Z' then (c as int + 32) as char else c
  }

  function UpperChar(c: char): char {
    if 'a' <= c <= 'z' then (c as int - 32) as char else c
  }

  /** strtolower, ASCII letters only (PHP 8.2 and later). */
  function ToLower(s: string): (r: string)
    ensures |r| == |s|
  {
    if s == [] then [] else [LowerChar(s[0])] + ToLower(s[1..])
  }

  /** Every character is lower-cased where it stands. */
  lemma {:induction false} ToLowerAt(s: string)
    ensures forall i :: 0 <= i < |s| ==> ToLower(s)[i] == LowerChar(s[i])
    decreases |s|
  {
    if s != [] {
      ToLowerAt(s[1..]);
      assert forall i :: 1 <= i < |s| ==> ToLower(s)[i] == ToLower(s[1..])[i - 1] && s[i] == s[1..][i - 1];
    }
  }

  /** strtoupper, ASCII letters only (PHP 8.2 and later). */
  function ToUpper(s: string): (r: string)
    ensures |r| == |s|
  {
    if s == [] then [] else [UpperChar(s[0])] + ToUpper(s[1..])
  }

  /** Every character is upper-cased where it stands. */
  lemma {:induction false} ToUpperAt(s: string)
    ensures forall i :: 0 <= i < |s| ==> ToUpper(s)[i] == UpperChar(s[i])
    decreases |s|
  {
    if s != [] {
      ToUpperAt(s[1..]);
      assert forall i :: 1 <= i < |s| ==> ToUpper(s)[i] == ToUpper(s[1..])[i - 1] && s[i] == s[1..][i - 1];
    }
  }

  /** str_replace(from, to, s) for one-character search and replacement. */
  function ReplaceChar(s: string, from: char, to: char): (r: string)
    ensures |r| == |s|
  {
    if s == [] then []
    else [if s[0] == from then to else s[0]] + ReplaceChar(s[1..], from, to)
  }

  /** Every occurrence of `from` is replaced where it stands, and every
      other character is kept. */
  lemma {:induction false} ReplaceCharAt(s: string, from: char, to: char)
    ensures forall i :: 0 <= i < |s| ==>
      ReplaceChar(s, from, to)[i] == if s[i] == from then to else s[i]
    decreases |s|
  {
    if s != [] {
      ReplaceCharAt(s[1..], from, to);
      var r := ReplaceChar(s, from, to);
      assert forall i :: 1 <= i < |s| ==> r[i] == ReplaceChar(s[1..], from, to)[i - 1] && s[i] == s[1..][i - 1];
    }
  }
}
