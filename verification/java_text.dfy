/**
 * The few `java.lang.String` and `Integer` operations the membership protocol
 * relies on, written out with Java's own edge cases: `trim`, `split` on a
 * literal character and on the regex `\s+` (with and without a limit),
 * `String.join`, `Integer.parseInt` and `Integer.toString`.
 */
module JavaText {

  datatype Option<T> = None | Some(value: T)

  const MinInt32: int := -0x8000_0000
  const MaxInt32: int := 0x7FFF_FFFF

  // ---------------------------------------------------------------------------
  // String.trim()
  // ---------------------------------------------------------------------------

  /** `trim` removes every leading and trailing character whose code is at most U+0020. */
  predicate IsTrimmable(c: char) {
    c as int <= 0x20
  }

  /** Nothing but characters that `trim` removes. */
  predicate Blank(s: string) {
    forall k :: 0 <= k < |s| ==> IsTrimmable(s[k])
  }

  /** Index of the first character at or after `i` that `trim` keeps, or `|s|`. */
  function SkipBlank(s: string, i: nat): (j: nat)
    requires i <= |s|
    ensures i <= j <= |s|
    ensures forall k :: i <= k < j ==> IsTrimmable(s[k])
    ensures j < |s| ==> !IsTrimmable(s[j])
    decreases |s| - i
  {
    if i < |s| && IsTrimmable(s[i]) then SkipBlank(s, i + 1) else i
  }

  /** Index just past the last character before `j` (and not before `lo`) that `trim` keeps, or `lo`. */
  function BackBlank(s: string, lo: nat, j: nat): (e: nat)
    requires lo <= j <= |s|
    ensures lo <= e <= j
    ensures forall k :: e <= k < j ==> IsTrimmable(s[k])
    ensures e > lo ==> !IsTrimmable(s[e - 1])
    decreases j
  {
    if j > lo && IsTrimmable(s[j - 1]) then BackBlank(s, lo, j - 1) else j
  }

  /** `s.trim()`: the longest middle part of `s` that neither starts nor ends with a trimmable character. */
  function Trim(s: string): (r: string)
    ensures |r| <= |s|
    ensures r != [] ==> !IsTrimmable(r[0]) && !IsTrimmable(r[|r| - 1])
    ensures r == [] <==> Blank(s)
  {
    var a := SkipBlank(s, 0);
    var e := BackBlank(s, a, |s|);
    assert a < |s| ==> e > a;
    s[a..e]
  }

  lemma BlankConcat(a: string, b: string)
    requires Blank(a) && Blank(b)
    ensures Blank(a + b)
  {
    assert forall k :: 0 <= k < |a + b| ==> (a + b)[k] == if k < |a| then a[k] else b[k - |a|];
  }

  /** A text framed by trimmable characters, and neither starting nor ending with one, is what `trim` returns. */
  lemma TrimUnique(x: string, r: string, y: string)
    requires Blank(x) && Blank(y)
    requires r == [] || (!IsTrimmable(r[0]) && !IsTrimmable(r[|r| - 1]))
    ensures Trim(x + r + y) == r
  {
    var s := x + r + y;
    if r == [] {
      BlankConcat(x, y);
      assert s == x + y;
    } else {
      assert forall k :: 0 <= k < |x| ==> s[k] == x[k];
      assert forall k :: 0 <= k < |y| ==> s[|x| + |r| + k] == y[k];
      assert s[|x|] == r[0] && s[|x| + |r| - 1] == r[|r| - 1];
      var a := SkipBlank(s, 0);
      assert a == |x|;
      var e := BackBlank(s, a, |s|);
      assert e == |x| + |r|;
      assert s[a..e] == r;
    }
  }

  /** `trim` cuts its input into a blank head, the result and a blank tail. */
  lemma TrimSplits(d: string) returns (x: string, y: string)
    ensures Blank(x) && Blank(y)
    ensures d == x + Trim(d) + y
  {
    var a := SkipBlank(d, 0);
    var e := BackBlank(d, a, |d|);
    assert Trim(d) == d[a..e];
    x, y := d[..a], d[e..];
    forall k | 0 <= k < |x| ensures IsTrimmable(x[k]) {
      assert x[k] == d[k];
    }
    forall k | 0 <= k < |y| ensures IsTrimmable(y[k]) {
      assert y[k] == d[e + k];
    }
    assert d[..e] == x + d[a..e];
    assert d == d[..e] + y;
  }

  /** Trimmable padding after a text does not change what `trim` returns. */
  lemma TrimPadded(d: string, pad: string)
    requires Blank(pad)
    ensures Trim(d + pad) == Trim(d)
  {
    var r := Trim(d);
    var x, y := TrimSplits(d);
    BlankConcat(y, pad);
    assert d + pad == x + r + (y + pad);
    TrimUnique(x, r, y + pad);
  }

  /** `trim` keeps one contiguous slice of its input: a kept character beyond position `p` keeps everything up to `p`. */
  lemma TrimReaches(s: string, p: int)
    requires 0 <= p < |s| && !IsTrimmable(s[0]) && !IsTrimmable(s[p])
    ensures |Trim(s)| > p
  {
    var a := SkipBlank(s, 0);
    var e := BackBlank(s, a, |s|);
    assert a == 0;
    assert e > p;
  }

  // ---------------------------------------------------------------------------
  // s.split("\\s+", limit)
  // ---------------------------------------------------------------------------

  /** The regex class `\s`: space, tab, line feed, vertical tab, form feed, carriage return. */
  predicate IsSpace(c: char) {
    c == ' ' || '\t' <= c <= '\r'
  }

  predicate NoSpace(s: string) {
    forall m :: 0 <= m < |s| ==> !IsSpace(s[m])
  }

  /** Index of the first `\s` character of `s`, or `|s|` when there is none. */
  function FirstSpace(s: string): (i: nat)
    ensures i <= |s|
    ensures forall k :: 0 <= k < i ==> !IsSpace(s[k])
    ensures i < |s| ==> IsSpace(s[i])
  {
    if s == [] || IsSpace(s[0]) then 0 else 1 + FirstSpace(s[1..])
  }

  /** Index just past the run of `\s` characters that starts at `i`. */
  function SpaceRunEnd(s: string, i: nat): (j: nat)
    requires i <= |s|
    ensures i <= j <= |s|
    ensures forall k :: i <= k < j ==> IsSpace(s[k])
    ensures j < |s| ==> !IsSpace(s[j])
    decreases |s| - i
  {
    if i < |s| && IsSpace(s[i]) then SpaceRunEnd(s, i + 1) else i
  }

  /**
   * The pieces `Pattern.split` collects for `\s+` before its limit-0 clean-up.
   * `budget` 0 means no limit; a positive budget yields at most that many
   * pieces, the last one holding the unsplit rest of the input.
   */
  function SpacePieces(s: string, budget: nat): (r: seq<string>)
    ensures 1 <= |r|
    ensures budget > 0 ==> |r| <= budget
    ensures forall k :: 0 <= k < |r| - 1 ==> NoSpace(r[k])
    ensures budget == 0 || |r| < budget ==> NoSpace(r[|r| - 1])
    decreases |s|
  {
    var i := FirstSpace(s);
    if i == |s| || budget == 1 then [s]
    else
      var j := SpaceRunEnd(s, i);
      [s[..i]] + SpacePieces(s[j..], if budget == 0 then 0 else budget - 1)
  }

  /** On an input that neither starts nor ends with `\s` (a trimmed line), every piece is non-empty. */
  lemma {:induction false} SpacePiecesNonEmpty(s: string, budget: nat)
    requires s != [] && !IsSpace(s[0]) && !IsSpace(s[|s| - 1])
    ensures forall k :: 0 <= k < |SpacePieces(s, budget)| ==> SpacePieces(s, budget)[k] != ""
    decreases |s|
  {
    var i := FirstSpace(s);
    if i < |s| && budget != 1 {
      var j := SpaceRunEnd(s, i);
      assert j < |s|;
      var rest := s[j..];
      assert rest[|rest| - 1] == s[|s| - 1];
      SpacePiecesNonEmpty(rest, if budget == 0 then 0 else budget - 1);
    }
  }

  /** Every `\s` character is also removed by `trim`. */
  lemma SpaceIsTrimmable(c: char)
    ensures IsSpace(c) ==> IsTrimmable(c)
  {
  }

  /** Java's limit-0 clean-up: trailing empty strings are removed from the result. */
  function DropTrailingEmpty(pieces: seq<string>): (r: seq<string>)
    ensures |r| <= |pieces| && r == pieces[..|r|]
    ensures r != [] ==> r[|r| - 1] != ""
    ensures forall k :: |r| <= k < |pieces| ==> pieces[k] == ""
  {
    if pieces != [] && pieces[|pieces| - 1] == "" then DropTrailingEmpty(pieces[..|pieces| - 1]) else pieces
  }

  /**
   * `s.split("\\s+", limit)` for `limit >= 0`: an input without a match comes
   * back whole; otherwise the pieces, with trailing empty ones dropped when the
   * limit is 0.
   */
  function SplitSpaces(s: string, limit: nat): (r: seq<string>)
    ensures NoSpace(s) ==> r == [s]
    ensures limit > 0 ==> 1 <= |r| <= limit
    ensures forall k :: 0 <= k < |r| - 1 ==> NoSpace(r[k])
    ensures r != [] && (limit == 0 || |r| < limit) ==> NoSpace(r[|r| - 1])
    ensures limit == 0 && !NoSpace(s) && r != [] ==> r[|r| - 1] != ""
  {
    if FirstSpace(s) == |s| then [s]
    else if limit == 0 then DropTrailingEmpty(SpacePieces(s, 0))
    else SpacePieces(s, limit)
  }

  /**
   * Words that a `\s+` split with this limit gives back from their
   * single-space join: each word is non-empty and does not start with `\s`,
   * and only a last word that the limit leaves unsplit may hold `\s`.
   */
  predicate SpaceSplittable(words: seq<string>, limit: nat) {
    && words != []
    && (forall k :: 0 <= k < |words| ==> words[k] != "" && !IsSpace(words[k][0]))
    && (forall k :: 0 <= k < |words| - 1 ==> NoSpace(words[k]))
    && (limit == |words| || ((limit == 0 || limit > |words|) && NoSpace(words[|words| - 1])))
  }

  lemma FirstSpaceJoined(a: string, b: string)
    requires NoSpace(a)
    ensures FirstSpace(a + " " + b) == |a|
  {
    var s := a + " " + b;
    assert forall k :: 0 <= k < |a| ==> s[k] == a[k];
    assert s[|a|] == ' ';
  }

  lemma {:induction false} SpacePiecesJoin(words: seq<string>, budget: nat)
    requires SpaceSplittable(words, budget)
    ensures SpacePieces(Join(' ', words), budget) == words
    decreases |words|
  {
    var s := Join(' ', words);
    if |words| > 1 {
      var w := words[0];
      var rest := words[1..];
      var t := Join(' ', rest);
      assert s == w + " " + t;
      assert t != [] && t[0] == rest[0][0];
      FirstSpaceJoined(w, t);
      assert s[|w| + 1] == t[0];
      assert SpaceRunEnd(s, |w| + 1) == |w| + 1;
      assert SpaceRunEnd(s, |w|) == |w| + 1;
      assert s[..|w|] == w && s[|w| + 1..] == t;
      SpacePiecesJoin(rest, if budget == 0 then 0 else budget - 1);
    }
  }

  lemma {:induction false} LastOfJoin(words: seq<string>)
    requires words != [] && words[|words| - 1] != ""
    ensures var line := Join(' ', words); var w := words[|words| - 1];
      line != [] && line[|line| - 1] == w[|w| - 1]
    decreases |words|
  {
    if |words| > 1 {
      LastOfJoin(words[1..]);
    }
  }

  lemma JoinThree(a: string, b: string, c: string)
    ensures Join(' ', [a, b, c]) == a + " " + b + " " + c
  {
    assert [a, b, c][1..] == [b, c] && [b, c][1..] == [c];
    assert Join(' ', [b, c]) == b + " " + c;
  }

  lemma JoinFour(a: string, b: string, c: string, d: string)
    ensures Join(' ', [a, b, c, d]) == a + " " + b + " " + c + " " + d
  {
    assert [a, b, c, d][1..] == [b, c, d];
    JoinThree(b, c, d);
  }

  lemma JoinFive(a: string, b: string, c: string, d: string, e: string)
    ensures Join(' ', [a, b, c, d, e]) == a + " " + b + " " + c + " " + d + " " + e
  {
    var w := [a, b, c, d, e];
    assert w[1..] == [b, c, d, e];
    JoinFour(b, c, d, e);
  }

  /** The `\s+` split inverts the single-space join on the words it can give back. */
  lemma SplitSpacesJoin(words: seq<string>, limit: nat)
    requires SpaceSplittable(words, limit)
    ensures SplitSpaces(Join(' ', words), limit) == words
  {
    var s := Join(' ', words);
    SpacePiecesJoin(words, limit);
    if |words| > 1 {
      assert s[|words[0]|] == ' ';
    }
  }

  // ---------------------------------------------------------------------------
  // s.split(","), s.split("\\|", 2) and String.join
  // ---------------------------------------------------------------------------

  /** Index of the first `c` in `s`, or `|s|` when there is none. */
  function IndexOf(s: string, c: char): (i: nat)
    ensures i <= |s|
    ensures forall k :: 0 <= k < i ==> s[k] != c
    ensures i < |s| ==> s[i] == c
  {
    if s == [] || s[0] == c then 0 else 1 + IndexOf(s[1..], c)
  }

  /** Every piece between consecutive occurrences of `c`, before any limit-0 clean-up. */
  function Pieces(s: string, c: char): (r: seq<string>)
    ensures 1 <= |r|
    ensures forall k :: 0 <= k < |r| ==> c !in r[k]
    decreases |s|
  {
    var i := IndexOf(s, c);
    if i == |s| then [s] else [s[..i]] + Pieces(s[i + 1..], c)
  }

  /**
   * `s.split(c)` for a literal character `c` (limit 0): without any `c` the
   * input comes back as the single element `[s]`, even when `s` is empty;
   * otherwise trailing empty pieces are dropped, so `","` splits to `[]`.
   */
  function Split(s: string, c: char): (r: seq<string>)
    ensures c !in s ==> r == [s]
    ensures forall k :: 0 <= k < |r| ==> c !in r[k]
    ensures c in s && r != [] ==> r[|r| - 1] != ""
  {
    if c !in s then [s] else DropTrailingEmpty(Pieces(s, c))
  }

  /** `String.join(String.valueOf(sep), parts)`. */
  function Join(sep: char, parts: seq<string>): (r: string)
    ensures |parts| == 1 ==> r == parts[0]
    ensures parts != [] ==> |r| >= |parts[0]| && r[..|parts[0]|] == parts[0]
    ensures |parts| >= 2 ==> |r| > |parts[0]| && r[|parts[0]|] == sep
  {
    if parts == [] then "" else if |parts| == 1 then parts[0] else parts[0] + [sep] + Join(sep, parts[1..])
  }

  /**
   * `s.split("\\" + c, 2)`: cut at the first `c` only. A positive limit keeps
   * an empty last piece, so `"Offline|"` gives `["Offline", ""]`.
   */
  function SplitFirst(s: string, c: char): (r: seq<string>)
    ensures c !in s <==> r == [s]
    ensures c in s ==> |r| == 2 && c !in r[0] && s == r[0] + [c] + r[1]
  {
    var i := IndexOf(s, c);
    if i == |s| then [s]
    else
      assert s == s[..i] + [c] + s[i + 1..];
      [s[..i], s[i + 1..]]
  }

  lemma {:induction false} JoinContainsSeparator(sep: char, parts: seq<string>)
    requires |parts| >= 2
    ensures sep in Join(sep, parts)
  {
    assert Join(sep, parts)[|parts[0]|] == sep;
  }

  /** Joining the pieces of `s` gives `s` back. */
  lemma {:induction false} JoinPieces(s: string, c: char)
    ensures Join(c, Pieces(s, c)) == s
    decreases |s|
  {
    var i := IndexOf(s, c);
    if i < |s| {
      var ps := Pieces(s[i + 1..], c);
      JoinPieces(s[i + 1..], c);
      assert Pieces(s, c) == [s[..i]] + ps;
      assert ([s[..i]] + ps)[1..] == ps;
      assert s == s[..i] + [c] + s[i + 1..];
    }
  }

  lemma IndexOfJoined(a: string, c: char, b: string)
    requires c !in a
    ensures IndexOf(a + [c] + b, c) == |a|
  {
    var s := a + [c] + b;
    assert forall k :: 0 <= k < |a| ==> s[k] == a[k];
    assert s[|a|] == c;
  }

  /** Cutting a join of comma-free parts at every separator gives the parts back. */
  lemma {:induction false} PiecesJoin(c: char, parts: seq<string>)
    requires parts != []
    requires forall k :: 0 <= k < |parts| ==> c !in parts[k]
    ensures Pieces(Join(c, parts), c) == parts
    decreases |parts|
  {
    if |parts| > 1 {
      var rest := Join(c, parts[1..]);
      var s := Join(c, parts);
      assert s == parts[0] + [c] + rest;
      IndexOfJoined(parts[0], c, rest);
      assert s[..|parts[0]|] == parts[0];
      assert s[|parts[0]| + 1..] == rest;
      PiecesJoin(c, parts[1..]);
      assert Pieces(s, c) == [parts[0]] + Pieces(rest, c);
      assert parts == [parts[0]] + parts[1..];
    }
  }

  /**
   * `split` inverts `join` exactly when the list is non-empty, no element holds
   * the separator, and the last element is non-empty (or is the only one).
   */
  lemma SplitJoin(c: char, parts: seq<string>)
    requires parts != []
    requires forall k :: 0 <= k < |parts| ==> c !in parts[k]
    requires |parts| == 1 || parts[|parts| - 1] != ""
    ensures Split(Join(c, parts), c) == parts
  {
    if |parts| > 1 {
      JoinContainsSeparator(c, parts);
      PiecesJoin(c, parts);
    }
  }

  /** A list of parts that `split` can give back: non-empty, separator-free, and not ending in "" unless alone. */
  predicate Splittable(c: char, parts: seq<string>) {
    && parts != []
    && (forall k :: 0 <= k < |parts| ==> c !in parts[k])
    && (|parts| == 1 || parts[|parts| - 1] != "")
  }

  /** `split` gives back what `join` was given exactly for the lists it can produce. */
  lemma SplitJoinExactly(c: char, parts: seq<string>)
    ensures Split(Join(c, parts), c) == parts <==> Splittable(c, parts)
  {
    if Splittable(c, parts) {
      SplitJoin(c, parts);
    } else if parts == [] {
      SplitJoinEmpty(c);
    } else if exists k :: 0 <= k < |parts| && c in parts[k] {
      var k :| 0 <= k < |parts| && c in parts[k];
    } else {
      JoinContainsSeparator(c, parts);
    }
  }

  /** The empty list does not survive a join and a split: it comes back as `[""]`. */
  lemma SplitJoinEmpty(c: char)
    ensures Join(c, []) == ""
    ensures Split(Join(c, []), c) == [""]
  {
  }

  /** A lone separator splits to the empty list, because both its pieces are empty and trailing. */
  lemma SplitLoneSeparator(c: char)
    ensures Split([c], c) == []
  {
    var s := [c];
    assert IndexOf(s, c) == 0;
    assert s[1..] == [];
    assert Pieces(s, c) == ["", ""];
    assert DropTrailingEmpty(["", ""]) == DropTrailingEmpty([""]);
  }

  /** A non-empty result of `split` survives being joined and split again. */
  lemma SplitJoinSplit(s: string, c: char)
    requires Split(s, c) != []
    ensures Split(Join(c, Split(s, c)), c) == Split(s, c)
  {
    SplitJoin(c, Split(s, c));
  }

  /** A join is empty exactly for `[]` and `[""]`. */
  lemma {:induction false} JoinEmpty(sep: char, parts: seq<string>)
    ensures Join(sep, parts) == "" <==> parts == [] || parts == [""]
  {
    if |parts| >= 2 {
      JoinContainsSeparator(sep, parts);
    }
  }

  /** Cutting `a + "|" + b` at its first bar, where `a` holds no bar, gives `a` and `b`. */
  lemma SplitFirstJoined(a: string, c: char, b: string)
    requires c !in a
    ensures SplitFirst(a + [c] + b, c) == [a, b]
  {
    var s := a + [c] + b;
    IndexOfJoined(a, c, b);
    assert s[..|a|] == a;
    assert s[|a| + 1..] == b;
  }

  // ---------------------------------------------------------------------------
  // Integer.parseInt and Integer.toString
  // ---------------------------------------------------------------------------

  predicate IsDigit(c: char) {
    '0' <= c <= '9'
  }

  predicate AllDigits(s: string) {
    forall k :: 0 <= k < |s| ==> IsDigit(s[k])
  }

  /** The value of a decimal digit string, most significant digit first. */
  function DigitsValue(s: string): nat
    requires AllDigits(s)
  {
    if s == [] then 0 else 10 * DigitsValue(s[..|s| - 1]) + (s[|s| - 1] as int - '0' as int)
  }

  /**
   * `Integer.parseInt(s)`: an optional `+` or `-` followed by at least one
   * ASCII digit, with a value in the 32-bit range; anything else is `None`
   * (the `NumberFormatException`).
   */
  function ParseInt(s: string): (r: Option<int>)
    ensures r.Some? ==> MinInt32 <= r.value <= MaxInt32
    ensures r.Some? ==> s != [] && AllDigits(if s[0] == '-' || s[0] == '+' then s[1..] else s)
    ensures s == [] || s == "-" || s == "+" ==> r == None
  {
    if s == [] then None
    else
      var digits := if s[0] == '-' || s[0] == '+' then s[1..] else s;
      if digits == [] || !AllDigits(digits) then None
      else
        var v: int := if s[0] == '-' then -(DigitsValue(digits) as int) else DigitsValue(digits) as int;
        if MinInt32 <= v <= MaxInt32 then Some(v) else None
  }

  function DigitChar(d: nat): (c: char)
    requires d < 10
    ensures IsDigit(c) && c as int - '0' as int == d
  {
    ('0' as int + d) as char
  }

  /** `Integer.toString(n)` for a non-negative `n`. */
  function NatToString(n: nat): (s: string)
    ensures s != [] && AllDigits(s)
  {
    if n < 10 then [DigitChar(n)] else NatToString(n / 10) + [DigitChar(n % 10)]
  }

  lemma {:induction false} DigitsValueOfNatToString(n: nat)
    ensures DigitsValue(NatToString(n)) == n
  {
    var s := NatToString(n);
    if n >= 10 {
      DigitsValueOfNatToString(n / 10);
      assert s[..|s| - 1] == NatToString(n / 10);
    }
  }

  /** `Integer.toString(n)`: a '-' before the digits of a negative number. */
  function IntToString(n: int): (s: string)
    ensures s != [] && (s[0] == '-' <==> n < 0)
    ensures forall k :: 0 <= k < |s| ==> IsDigit(s[k]) || (k == 0 && s[k] == '-')
  {
    if n < 0 then "-" + NatToString(-n) else NatToString(n)
  }

  /** `parseInt` reads back what `toString` writes, for every int. */
  lemma ParseIntOfIntToString(n: int)
    requires MinInt32 <= n <= MaxInt32
    ensures ParseInt(IntToString(n)) == Some(n)
  {
    var s := IntToString(n);
    if n < 0 {
      DigitsValueOfNatToString(-n);
      assert s[1..] == NatToString(-n);
    } else {
      DigitsValueOfNatToString(n);
    }
  }

  /** What `toString` writes is one word: no `\s`, nothing `trim` removes at either end, and no leading '#'. */
  lemma IntToStringIsWord(n: int)
    ensures var s := IntToString(n);
      s != "" && NoSpace(s) && !IsTrimmable(s[0]) && !IsTrimmable(s[|s| - 1]) && s[0] != '#'
  {
    var s := IntToString(n);
    assert IsDigit(s[0]) || s[0] == '-';
    assert IsDigit(s[|s| - 1]) || |s| == 1;
  }
}
