/** The few operations of Python's `str` type that the session-duration formats
    are built from, over `string` (= seq<char>): `find`, `in`, `split`, `replace`,
    `strip`, `int()` on a string and `str()` / f-string rendering of an `int`. */
module PyStr {

  datatype Option<+T> = None | Some(value: T)

  /** `sub` occurs in `s` starting at index `i`. */
  predicate OccursAt(s: string, sub: string, i: int) {
    0 <= i && i + |sub| <= |s| && s[i..i + |sub|] == sub
  }

  lemma OccursAtTail(s: string, sub: string, i: int)
    requires |s| > 0 && 1 <= i
    ensures OccursAt(s, sub, i) <==> OccursAt(s[1..], sub, i - 1)
  {
    if i + |sub| <= |s| {
      assert s[i..i + |sub|] == s[1..][i - 1..i - 1 + |sub|];
    }
  }

  /** `s.find(sub)`: the first index at which `sub` occurs in `s`, or -1. */
  function Find(s: string, sub: string): (r: int)
    ensures r == -1 || OccursAt(s, sub, r)
    ensures forall i :: 0 <= i && (r == -1 || i < r) ==> !OccursAt(s, sub, i)
    decreases |s|
  {
    if |s| < |sub| then -1
    else if s[..|sub|] == sub then 0
    else
      var k := Find(s[1..], sub);
      assert forall i :: 1 <= i ==> (OccursAt(s, sub, i) <==> OccursAt(s[1..], sub, i - 1)) by {
        forall i | 1 <= i { OccursAtTail(s, sub, i); }
      }
      if k < 0 then -1 else k + 1
  }

  /** `sub in s`. */
  predicate Contains(s: string, sub: string) {
    Find(s, sub) >= 0
  }

  lemma OccursAtContains(s: string, sub: string, i: int)
    requires OccursAt(s, sub, i)
    ensures Contains(s, sub)
  {
  }

  /** If one character of `sub` never appears in `s`, then `sub` does not occur in `s`. */
  lemma MissingCharNotContained(s: string, sub: string, j: int)
    requires 0 <= j < |sub| && sub[j] !in s
    ensures !Contains(s, sub)
  {

  }

  /** The pieces `sep.join(ps)` glues together. */
  function Join(ps: seq<string>, sep: string): string {
    if |ps| == 0 then ""
    else if |ps| == 1 then ps[0]
    else ps[0] + sep + Join(ps[1..], sep)
  }

  /** `s.split(sep)`: cut `s` at every occurrence of `sep`, scanning left to right. */
  function Split(s: string, sep: string): (r: seq<string>)
    requires sep != ""
    ensures |r| >= 1
    decreases |s|
  {
    var k := Find(s, sep);
    if k < 0 then [s] else [s[..k]] + Split(s[k + |sep|..], sep)
  }

  /** The pieces of a split, joined by `sep`, give the text back. */
  lemma {:induction false} SplitRejoins(s: string, sep: string)
    requires sep != ""
    ensures Join(Split(s, sep), sep) == s
    decreases |s|
  {
    var k := Find(s, sep);
    if k >= 0 {
      var rest := s[k + |sep|..];
      SplitRejoins(rest, sep);
      SplitStep(s, sep);
      CutAround(s, sep, k);
    }
  }

  /** No piece of a split contains `sep`. */
  lemma {:induction false} SplitPiecesLack(s: string, sep: string)
    requires sep != ""
    ensures forall i :: 0 <= i < |Split(s, sep)| ==> !Contains(Split(s, sep)[i], sep)
    decreases |s|
  {
    var k := Find(s, sep);
    if k >= 0 {
      var rest := s[k + |sep|..];
      HeadLacks(s, sep, k);
      SplitPiecesLack(rest, sep);
      SplitStep(s, sep);
      var r := Split(s, sep);
      forall i | 0 <= i < |r| ensures !Contains(r[i], sep) {
        if i > 0 {
          assert r[i] == Split(rest, sep)[i - 1];
        }
      }
    }
  }

  /** The text splits around the occurrence `Find` reports. */
  lemma CutAround(s: string, sep: string, k: int)
    requires sep != "" && k == Find(s, sep) >= 0
    ensures s == s[..k] + sep + s[k + |sep|..]
  {
    assert OccursAt(s, sep, k);
    SliceThree(s, k, k + |sep|);
  }

  lemma SliceThree(s: string, a: int, b: int)
    requires 0 <= a <= b <= |s|
    ensures s == s[..a] + s[a..b] + s[b..]
  {
  }

  /** What comes before the first occurrence of `sep` does not contain it. */
  lemma HeadLacks(s: string, sep: string, k: int)
    requires sep != "" && k == Find(s, sep) >= 0
    ensures !Contains(s[..k], sep)
  {
    var head := s[..k];
    if Contains(head, sep) {
      var j := Find(head, sep);
      assert head[j..j + |sep|] == s[j..j + |sep|];
      assert OccursAt(s, sep, j);
      assert false;
    }
  }

  /** `Split` undoes `Join` when the separator has a character `sep[j]` that
      appears nowhere else in the separator and in none of the pieces: every
      occurrence of `sep` is then one of the separators `Join` put in. */
  lemma {:induction false} SplitJoin(ps: seq<string>, sep: string, j: int)
    requires |ps| >= 1 && 0 <= j < |sep|
    requires forall k :: 0 <= k < |sep| && k != j ==> sep[k] != sep[j]
    requires forall i :: 0 <= i < |ps| ==> sep[j] !in ps[i]
    ensures Split(Join(ps, sep), sep) == ps
  {
    if |ps| == 1 {
      MissingCharNotContained(ps[0], sep, j);
    } else {
      SplitJoinStep(ps[0], Join(ps[1..], sep), sep, j);
      SplitJoin(ps[1..], sep, j);
      assert ps == [ps[0]] + ps[1..];
    }
  }

  /** The first cut of `p + sep + rest` is right after `p`. */
  lemma SplitJoinStep(p: string, rest: string, sep: string, j: int)
    requires 0 <= j < |sep| && sep[j] !in p
    requires forall k :: 0 <= k < |sep| && k != j ==> sep[k] != sep[j]
    ensures Split(p + sep + rest, sep) == [p] + Split(rest, sep)
  {
    var s := p + sep + rest;
    FirstSeparator(p, sep, rest, j);
    SplitStep(s, sep);
    assert s[..|p|] == p;
    assert s[|p| + |sep|..] == rest;
  }

  /** In `p + sep + rest`, the first `sep` is the one after `p` when `p` lacks
      a character that occurs only once in `sep`. */
  lemma FirstSeparator(p: string, sep: string, rest: string, j: int)
    requires 0 <= j < |sep| && sep[j] !in p
    requires forall k :: 0 <= k < |sep| && k != j ==> sep[k] != sep[j]
    ensures Find(p + sep + rest, sep) == |p|
  {
    var s := p + sep + rest;
    assert OccursAt(s, sep, |p|) by {
      assert s[|p|..|p| + |sep|] == sep;
    }
    forall i | 0 <= i < |p| ensures !OccursAt(s, sep, i) {
      if i + |sep| <= |s| {
        assert s[i..i + |sep|][j] == s[i + j];
        if i + j < |p| {
          assert s[i + j] == p[i + j];
        } else {
          assert s[i + j] == sep[i + j - |p|];
        }
      }
    }
  }

  /** One cut of `Split`: the piece before the first `sep`, then the rest split. */
  lemma SplitStep(s: string, sep: string)
    requires sep != "" && Find(s, sep) >= 0
    ensures Split(s, sep) == [s[..Find(s, sep)]] + Split(s[Find(s, sep) + |sep|..], sep)
  {
  }

  /** The first piece of `split` is the text up to the first separator, or
      all of it. */
  /** Position `e` ends a piece of a split: the text ends there or a
      separator starts there. */
  predicate PieceEnd(s: string, sep: string, e: int) {
    e == |s| || OccursAt(s, sep, e)
  }

  lemma SplitHead(s: string, sep: string, p: string)
    requires sep != "" && p == Split(s, sep)[0]
    ensures p <= s && PieceEnd(s, sep, |p|)
    ensures forall j :: 0 <= j < |p| ==> !OccursAt(s, sep, j)
  {
    if Find(s, sep) >= 0 {
      SplitStep(s, sep);
    }
  }

  /** A split that cuts ends with the last piece of the rest. */
  lemma SplitEndsWith(s: string, sep: string, r: seq<string>, t: seq<string>)
    requires sep != "" && Find(s, sep) >= 0
    requires r == Split(s, sep) && t == Split(s[Find(s, sep) + |sep|..], sep)
    ensures r[|r| - 1] == t[|t| - 1]
  {
    SplitStep(s, sep);
    LastOfCons(r, s[..Find(s, sep)], t);
  }

  /** The last element of `[h] + t`. */
  lemma LastOfCons<T>(r: seq<T>, h: T, t: seq<T>)
    requires r == [h] + t && |t| >= 1
    ensures r[|r| - 1] == t[|t| - 1]
  {
  }

  /** Dropping a prefix of `x + y` no longer than `x`. */
  lemma DropPrefix(x: string, y: string, m: int)
    requires 0 <= m <= |x|
    ensures (x + y)[m..] == x[m..] + y
  {
  }

  /** A character in neither part is not in their concatenation. */
  lemma NotInConcat(ch: char, a: string, b: string)
    requires ch !in a && ch !in b
    ensures ch !in a + b
  {
  }

  /** `s.replace(pat, rep)`: every non-overlapping occurrence of `pat`, found
      left to right, replaced by `rep`. */
  function Replace(s: string, pat: string, rep: string): string
    requires pat != ""
    decreases |s|
  {
    if |s| < |pat| then s
    else if s[..|pat|] == pat then rep + Replace(s[|pat|..], pat, rep)
    else [s[0]] + Replace(s[1..], pat, rep)
  }

  /** `str.replace` leaves a text without the pattern unchanged. */
  lemma {:induction false} ReplaceAbsent(s: string, pat: string, rep: string)
    requires pat != "" && !Contains(s, pat)
    ensures Replace(s, pat, rep) == s
    decreases |s|
  {
    if |s| >= |pat| {
      assert !OccursAt(s, pat, 0);
      var k := Find(s[1..], pat);
      if k >= 0 {
        OccursAtTail(s, pat, k + 1);
        OccursAtContains(s, pat, k + 1);
        assert false;
      }
      ReplaceAbsent(s[1..], pat, rep);
      assert s == [s[0]] + s[1..];
    }
  }

  /** Replacing a trailing `pat` whose first character appears nowhere before it. */
  lemma {:induction false} ReplaceSuffix(a: string, pat: string, rep: string)
    requires pat != "" && pat[0] !in a
    ensures Replace(a + pat, pat, rep) == a + rep
    decreases |a|
  {
    if a == [] {
      assert a + pat == pat;
      ReplaceWhole(pat, rep);
    } else {
      assert a[0] in a;
      ReplaceSuffix(a[1..], pat, rep);
      ReplaceFirst(a, pat, rep);
    }
  }

  lemma ReplaceWhole(pat: string, rep: string)
    requires pat != ""
    ensures Replace(pat, pat, rep) == rep
  {
    assert pat[..|pat|] == pat;
    assert pat[|pat|..] == [];
  }

  /** One step of `ReplaceSuffix`: the first character is not the start of `pat`. */
  lemma ReplaceFirst(a: string, pat: string, rep: string)
    requires pat != "" && a != [] && a[0] != pat[0]
    requires Replace(a[1..] + pat, pat, rep) == a[1..] + rep
    ensures Replace(a + pat, pat, rep) == a + rep
  {
    var s := a + pat;
    assert s[..|pat|] != pat by {
      assert s[..|pat|][0] == a[0];
    }
    ReplaceSkip(s, pat, rep);
    assert s[1..] == a[1..] + pat by {
      ConsTail(a, pat);
    }
    ConsTail(a, rep);
  }

  /** Taking the first character off `a + b`. */
  lemma ConsTail(a: string, b: string)
    requires a != []
    ensures (a + b)[0] == a[0] && (a + b)[1..] == a[1..] + b
    ensures [a[0]] + (a[1..] + b) == a + b
  {
  }

  /** `Replace` moves past a first character where `pat` does not start. */
  lemma ReplaceSkip(s: string, pat: string, rep: string)
    requires pat != "" && |s| >= |pat| && s[..|pat|] != pat
    ensures Replace(s, pat, rep) == [s[0]] + Replace(s[1..], pat, rep)
  {
  }

  function StripLeft(s: string, cs: set<char>): (r: string)
    ensures |r| <= |s| && r == s[|s| - |r|..]
    ensures forall i :: 0 <= i < |s| - |r| ==> s[i] in cs
    ensures r == [] || r[0] !in cs
    decreases |s|
  {
    if |s| > 0 && s[0] in cs then StripLeft(s[1..], cs) else s
  }

  function StripRight(s: string, cs: set<char>): (r: string)
    ensures |r| <= |s| && r == s[..|r|]
    ensures forall i :: |r| <= i < |s| ==> s[i] in cs
    ensures r == [] || r[|r| - 1] !in cs
    decreases |s|
  {
    if |s| > 0 && s[|s| - 1] in cs then StripRight(s[..|s| - 1], cs) else s
  }

  /** `s.strip(chars)`: `s` without its leading and trailing characters from `cs`. */
  function Strip(s: string, cs: set<char>): (r: string)
    ensures r == [] || (r[0] !in cs && r[|r| - 1] !in cs)
    ensures s != [] && s[0] !in cs && s[|s| - 1] !in cs ==> r == s
  {
    StripRight(StripLeft(s, cs), cs)
  }

  /** `strip` removes only a leading and a trailing run of characters from
      `cs`: what is left is a slice of `s`. */
  lemma StripBounds(s: string, cs: set<char>) returns (a: int, b: int)
    ensures 0 <= a <= b <= |s| && Strip(s, cs) == s[a..b]
    ensures forall i :: 0 <= i < a ==> s[i] in cs
    ensures forall i :: b <= i < |s| ==> s[i] in cs
  {
    var l := StripLeft(s, cs);
    var r := StripRight(l, cs);
    a := |s| - |l|;
    b := a + |r|;
    SuffixPrefix(s, a, |r|);
    forall i | b <= i < |s| ensures s[i] in cs {
      assert s[i] == s[a..][i - a];
    }
  }

  lemma SuffixPrefix(s: string, a: int, n: int)
    requires 0 <= a && 0 <= n && a + n <= |s|
    ensures s[a..][..n] == s[a..a + n]
  {
  }

  /** `StripLeft` keeps a text that does not start with a stripped character. */
  lemma StripLeftKeeps(s: string, cs: set<char>)
    requires s != [] && s[0] !in cs
    ensures StripLeft(s, cs) == s
  {
  }

  /** `StripRight` removes exactly a tail made of stripped characters. */
  lemma {:induction false} StripRightTail(x: string, tail: string, cs: set<char>)
    requires forall i :: 0 <= i < |tail| ==> tail[i] in cs
    requires x == [] || x[|x| - 1] !in cs
    ensures StripRight(x + tail, cs) == x
  {
    if tail != [] {
      var s := x + tail;
      assert s[|s| - 1] == tail[|tail| - 1];
      assert s[..|s| - 1] == x + tail[..|tail| - 1];
      StripRightTail(x, tail[..|tail| - 1], cs);
    } else {
      assert x + tail == x;
    }
  }

  /** The ASCII characters `str.isspace()` accepts; `str.strip()` with no
      argument removes these. */
  const Whitespace: set<char> :=
    {' ', '\t', '\n', '\r', 11 as char, 12 as char, 28 as char, 29 as char, 30 as char, 31 as char}

  /** The ASCII white space `int()` skips before and after the literal. */
  const IntWhitespace: set<char> := {' ', '\t', '\n', '\r', 11 as char, 12 as char}

  predicate IsDigit(c: char) {
    '0' <= c <= '9'
  }

  /** A base-10 literal as `int()` accepts it after the sign: decimal digits,
      with single underscores allowed between two digits. */
  predicate IsDigitRun(d: string) {
    && |d| > 0
    && IsDigit(d[0])
    && IsDigit(d[|d| - 1])
    && forall i :: 0 <= i < |d| ==> IsDigit(d[i]) || (d[i] == '_' && i + 1 < |d| && IsDigit(d[i + 1]))
  }

  /** The number a digit run denotes, underscores ignored. */
  function DigitsValue(d: string): nat {
    if d == [] then 0
    else if IsDigit(d[|d| - 1]) then 10 * DigitsValue(d[..|d| - 1]) + (d[|d| - 1] as int - '0' as int)
    else DigitsValue(d[..|d| - 1])
  }

  /** The characters an `int()` literal may contain at all. */
  predicate LiteralChar(c: char) {
    IsDigit(c) || c == '_' || c == '+' || c == '-' || c in IntWhitespace
  }

  /** `t` is a literal `int()` accepts once white space is stripped. */
  predicate IsLiteral(t: string) {
    if |t| > 0 && (t[0] == '+' || t[0] == '-') then IsDigitRun(t[1..]) else IsDigitRun(t)
  }

  /** `int(s)` for a string `s`; `None` where Python raises `ValueError`. */
  function PyInt(s: string): Option<int> {
    var t := Strip(s, IntWhitespace);
    if !IsLiteral(t) then None
    else
      if t[0] == '-' then Some(-(DigitsValue(t[1..]) as int))
      else if t[0] == '+' then Some(DigitsValue(t[1..]))
      else Some(DigitsValue(t))
  }

  /** `int()` ignores white space around a literal: `int(" 7\n") == int("7")`. */
  lemma PyIntIgnoresSpace(w1: string, t: string, w2: string)
    requires forall i :: 0 <= i < |w1| ==> w1[i] in IntWhitespace
    requires forall i :: 0 <= i < |w2| ==> w2[i] in IntWhitespace
    requires IsLiteral(t)
    ensures PyInt(w1 + t + w2) == PyInt(t) && PyInt(t).Some?
  {
    LiteralEnds(t);
    StripAround(w1, t, w2, IntWhitespace);
    StripNoop(t, IntWhitespace);
  }

  /** A literal starts and ends with something other than white space. */
  lemma LiteralEnds(t: string)
    requires IsLiteral(t)
    ensures t != [] && t[0] !in IntWhitespace && t[|t| - 1] !in IntWhitespace
  {
    var d := if t[0] == '+' || t[0] == '-' then t[1..] else t;
    assert t[|t| - 1] == d[|d| - 1];
    DigitNotSpace(d[|d| - 1]);
    if d == t {
      DigitNotSpace(t[0]);
    }
  }

  /** Stripping removes exactly a run of stripped characters on each side. */
  lemma StripAround(w1: string, t: string, w2: string, cs: set<char>)
    requires forall i :: 0 <= i < |w1| ==> w1[i] in cs
    requires forall i :: 0 <= i < |w2| ==> w2[i] in cs
    requires t != [] && t[0] !in cs && t[|t| - 1] !in cs
    ensures Strip(w1 + t + w2, cs) == t
  {
    var s := w1 + t + w2;
    assert s == w1 + (t + w2);
    assert StripLeft(s, cs) == t + w2 by {
      StripLeftRun(w1, t + w2, cs);
    }
    StripRightRun(t, w2, cs);
  }

  lemma {:induction false} StripLeftRun(w: string, t: string, cs: set<char>)
    requires forall i :: 0 <= i < |w| ==> w[i] in cs
    requires t != [] && t[0] !in cs
    ensures StripLeft(w + t, cs) == t
    decreases |w|
  {
    if w == [] {
      assert w + t == t;
    } else {
      assert (w + t)[1..] == w[1..] + t;
      StripLeftRun(w[1..], t, cs);
    }
  }

  lemma {:induction false} StripRightRun(t: string, w: string, cs: set<char>)
    requires forall i :: 0 <= i < |w| ==> w[i] in cs
    requires t != [] && t[|t| - 1] !in cs
    ensures StripRight(t + w, cs) == t
    decreases |w|
  {
    if w == [] {
      assert t + w == t;
    } else {
      assert (t + w)[..|t + w| - 1] == t + w[..|w| - 1];
      StripRightRun(t, w[..|w| - 1], cs);
    }
  }

  lemma LiteralHasLiteralChars(s: string, t: string)
    requires t == Strip(s, IntWhitespace) && IsLiteral(t)
    ensures forall i :: 0 <= i < |s| ==> LiteralChar(s[i])
  {
    LiteralChars(t);
    var a, b := StripBounds(s, IntWhitespace);
    forall i | a <= i < b ensures LiteralChar(s[i]) {
      assert s[i] == t[i - a];
    }
  }

  /** Every character of a literal is a digit, a sign or an underscore. */
  lemma LiteralChars(t: string)
    requires IsLiteral(t)
    ensures forall k :: 0 <= k < |t| ==> LiteralChar(t[k])
  {
    var signed := |t| > 0 && (t[0] == '+' || t[0] == '-');
    var d := if signed then t[1..] else t;
    forall k | 0 <= k < |d| ensures LiteralChar(d[k]) {
      assert IsDigit(d[k]) || (d[k] == '_' && k + 1 < |d| && IsDigit(d[k + 1]));
    }
    forall k | 0 <= k < |t| ensures LiteralChar(t[k]) {
      if signed && k > 0 {
        assert t[k] == d[k - 1];
      } else if !signed {
        assert t[k] == d[k];
      }
    }
  }

  /** A character no literal contains makes `int()` fail. */
  lemma NotLiteral(s: string, i: int)
    requires 0 <= i < |s| && !LiteralChar(s[i])
    ensures PyInt(s) == None
  {
    var t := Strip(s, IntWhitespace);
    if IsLiteral(t) {
      LiteralHasLiteralChars(s, t);
      assert false;
    }
  }

  function DigitChar(d: int): (c: char)
    requires 0 <= d < 10
    ensures IsDigit(c) && c as int - '0' as int == d
  {
    ('0' as int + d) as char
  }

  /** `str(n)` for a natural number: its decimal digits, most significant first. */
  function NatToString(n: nat): (r: string)
    ensures forall i :: 0 <= i < |r| ==> IsDigit(r[i])
    ensures IsDigitRun(r) && DigitsValue(r) == n
  {
    if n < 10 then [DigitChar(n)]
    else
      var r := NatToString(n / 10) + [DigitChar(n % 10)];
      assert r[..|r| - 1] == NatToString(n / 10);
      r
  }

  /** `str(i)` (and `f"{i}"`) for any integer: a minus sign for negatives. */
  function IntToString(i: int): (r: string)
    ensures r != []
  {
    var n := NatToString(if i < 0 then -i else i);
    if i < 0 then "-" + n else n
  }

  /** The shape of `str(i)`: a leading minus sign exactly for negatives,
      then at least one digit and nothing but digits. */
  lemma IntToStringShape(i: int)
    ensures var r := IntToString(i); |r| >= 1 && (r[0] == '-' <==> i < 0)
    ensures var r := IntToString(i); i < 0 ==> |r| >= 2 && forall k :: 1 <= k < |r| ==> IsDigit(r[k])
    ensures var r := IntToString(i); i >= 0 ==> forall k :: 0 <= k < |r| ==> IsDigit(r[k])
  {
    var n := NatToString(if i < 0 then -i else i);
    if i < 0 {
      forall k | 1 <= k < |"-" + n| ensures IsDigit(("-" + n)[k]) {
        assert ("-" + n)[k] == n[k - 1];
      }
    } else {
      assert n[0] != '-' by { assert IsDigit(n[0]); }
    }
  }

  /** `int(str(i)) == i`. */
  lemma IntToStringParses(i: int)
    ensures PyInt(IntToString(i)) == Some(i)
  {
    var n := NatToString(if i < 0 then -i else i);
    if i < 0 {
      assert ("-" + n)[1..] == n;
      SignedDigitsParse("-" + n, -i);
    } else {
      DigitsParse(n, i);
    }
  }

  lemma DigitsParse(n: string, v: nat)
    requires IsDigitRun(n) && DigitsValue(n) == v
    ensures PyInt(n) == Some(v)
  {
    DigitNotSpace(n[0]);
    DigitNotSpace(n[|n| - 1]);
    StripNoop(n, IntWhitespace);
  }

  lemma SignedDigitsParse(r: string, v: nat)
    requires |r| >= 2 && r[0] == '-' && IsDigitRun(r[1..]) && DigitsValue(r[1..]) == v
    ensures PyInt(r) == Some(-(v as int))
  {
    assert r[|r| - 1] == r[1..][|r| - 2];
    DigitNotSpace(r[|r| - 1]);
    StripNoop(r, IntWhitespace);
  }

  lemma DigitNotSpace(c: char)
    requires IsDigit(c)
    ensures c !in IntWhitespace
  {
  }

  lemma StripNoop(s: string, cs: set<char>)
    requires s != [] && s[0] !in cs && s[|s| - 1] !in cs
    ensures Strip(s, cs) == s
  {
  }
}
