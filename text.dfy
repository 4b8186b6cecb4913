/** The JavaScript string operations the reducer relies on: `includes`,
    `indexOf`, `split`/`join` (used as replace-all) and the decimal rendering
    of a number in a string concatenation. */
module Text {

  /** `pat` occurs in `s` at position `i`. */
  predicate OccursAt(s: string, pat: string, i: int)
  {
    0 <= i && i + |pat| <= |s| && s[i..i + |pat|] == pat
  }

  /** `String.prototype.indexOf`: the position of the first occurrence of
      `pat` in `s`, or -1. */
  function IndexOf(s: string, pat: string): (i: int)
    ensures -1 <= i && (i >= 0 ==> i + |pat| <= |s|)
    decreases |s|
  {
    if |s| < |pat| then -1
    else if s[..|pat|] == pat then 0
    else
      var k := IndexOf(s[1..], pat);
      if k < 0 then -1 else k + 1
  }

  /** `indexOf` reports a real occurrence. */
  lemma {:induction false} IndexOfOccurs(s: string, pat: string)
    ensures IndexOf(s, pat) >= 0 ==> OccursAt(s, pat, IndexOf(s, pat))
    decreases |s|
  {
    if |s| >= |pat| && s[..|pat|] != pat {
      var k := IndexOf(s[1..], pat);
      IndexOfOccurs(s[1..], pat);
      if k >= 0 {
        assert s[1..][k..k + |pat|] == s[k + 1..k + 1 + |pat|];
      }
    }
  }

  /** `String.prototype.includes`. */
  predicate Includes(s: string, pat: string)
  {
    IndexOf(s, pat) >= 0
  }

  /** `indexOf` finds the first occurrence, and -1 means there is none. */
  lemma {:induction false} IndexOfFirst(s: string, pat: string, j: int)
    requires 0 <= j
    requires IndexOf(s, pat) == -1 || j < IndexOf(s, pat)
    ensures !OccursAt(s, pat, j)
    decreases |s|
  {
    if |s| >= |pat| && s[..|pat|] != pat && j > 0 {
      IndexOfFirst(s[1..], pat, j - 1);
      if j + |pat| <= |s| {
        assert s[1..][j - 1..j - 1 + |pat|] == s[j..j + |pat|];
      }
    }
  }

  /** `includes` holds exactly when the pattern occurs somewhere. */
  lemma IncludesOccurs(s: string, pat: string)
    ensures Includes(s, pat) <==> exists i :: OccursAt(s, pat, i)
  {
    IndexOfOccurs(s, pat);
    if !Includes(s, pat) {
      forall i | OccursAt(s, pat, i) ensures false {
        IndexOfFirst(s, pat, i);
      }
    }
  }

  /** `String.prototype.split` with a non-empty separator: the pieces between
      the non-overlapping occurrences of `sep`, scanned left to right. */
  function Split(s: string, sep: string): (parts: seq<string>)
    requires |sep| > 0
    ensures |parts| >= 1
    decreases |s|
  {
    var i := IndexOf(s, sep);
    if i < 0 then [s] else [s[..i]] + Split(s[i + |sep|..], sep)
  }

  /** `Array.prototype.join`. */
  function Join(parts: seq<string>, sep: string): string
  {
    if |parts| == 0 then ""
    else if |parts| == 1 then parts[0]
    else parts[0] + sep + Join(parts[1..], sep)
  }

  /** `s.split(pat).join(rep)`: every occurrence of `pat` found by a left to
      right scan is replaced by `rep`. */
  function ReplaceAll(s: string, pat: string, rep: string): string
    requires |pat| > 0
  {
    Join(Split(s, pat), rep)
  }

  /** A split yields a single piece exactly when the separator does not occur. */
  lemma SplitSingle(s: string, sep: string)
    requires |sep| > 0
    ensures |Split(s, sep)| == 1 <==> !Includes(s, sep)
  {
    if Includes(s, sep) {
      SplitAtFirst(s, sep);
    }
  }

  /** Replacing a pattern that does not occur changes nothing. */
  lemma ReplaceAllAbsent(s: string, pat: string, rep: string)
    requires |pat| > 0 && !Includes(s, pat)
    ensures ReplaceAll(s, pat, rep) == s
  {
    SplitSingle(s, pat);
  }

  /** Where the pattern first occurred, the replacement now stands. */
  lemma ReplaceAllInserts(s: string, pat: string, rep: string)
    requires |pat| > 0 && Includes(s, pat)
    ensures OccursAt(ReplaceAll(s, pat, rep), rep, IndexOf(s, pat))
  {
    var parts := Split(s, pat);
    IndexOfOccurs(s, pat);
    SplitSingle(s, pat);
    assert parts[0] == s[..IndexOf(s, pat)];
    assert parts == [parts[0]] + parts[1..];
    JoinCons(parts[0], parts[1..], rep);
  }

  /** No piece of a split contains the separator. */
  lemma {:induction false} SplitPiecesFree(s: string, sep: string)
    requires |sep| > 0
    ensures forall k :: 0 <= k < |Split(s, sep)| ==> !Includes(Split(s, sep)[k], sep)
    decreases |s|
  {
    var i := IndexOf(s, sep);
    if i >= 0 {
      var rest := s[i + |sep|..];
      SplitPiecesFree(rest, sep);
      var head := s[..i];
      if Includes(head, sep) {
        var j := IndexOf(head, sep);
        IndexOfOccurs(head, sep);
        assert head[j..j + |sep|] == s[j..j + |sep|];
        IndexOfFirst(s, sep, j);
      }
      assert Split(s, sep) == [head] + Split(rest, sep);
    }
  }

  /** Joining a non-empty list after one more piece puts a separator between. */
  lemma JoinCons(head: string, tail: seq<string>, sep: string)
    requires |tail| >= 1
    ensures Join([head] + tail, sep) == head + sep + Join(tail, sep)
  {
    assert ([head] + tail)[1..] == tail;
  }

  /** A string is its text before the first occurrence of `sep`, then `sep`,
      then the rest. */
  lemma SplitAtFirst(s: string, sep: string)
    requires |sep| > 0 && IndexOf(s, sep) >= 0
    ensures var i := IndexOf(s, sep);
      s == s[..i] + sep + s[i + |sep|..] &&
      Split(s, sep) == [s[..i]] + Split(s[i + |sep|..], sep)
  {
    var i := IndexOf(s, sep);
    IndexOfOccurs(s, sep);
    assert s == s[..i] + s[i..i + |sep|] + s[i + |sep|..];
  }

  /** Splitting on a separator and joining with the same separator gives back
      the original string. */
  lemma {:induction false} JoinSplit(s: string, sep: string)
    requires |sep| > 0
    ensures Join(Split(s, sep), sep) == s
    decreases |s|
  {
    var i := IndexOf(s, sep);
    if i >= 0 {
      var rest := s[i + |sep|..];
      JoinSplit(rest, sep);
      SplitAtFirst(s, sep);
      JoinCons(s[..i], Split(rest, sep), sep);
    }
  }

  /** Replacing a pattern by itself changes nothing. */
  lemma ReplaceAllSelf(s: string, pat: string)
    requires |pat| > 0
    ensures ReplaceAll(s, pat, pat) == s
  {
    JoinSplit(s, pat);
  }

  /** The decimal digit `d` as a character. */
  function DigitChar(d: nat): char
    requires d < 10
  {
    ('0' as int + d) as char
  }

  /** The decimal rendering of `n`, as in `PLAYER + playerNumber`. */
  function Decimal(n: nat): (r: string)
    ensures |r| > 0
  {
    if n < 10 then [DigitChar(n)] else Decimal(n / 10) + [DigitChar(n % 10)]
  }

  /** The rendering is made of decimal digits only. */
  lemma {:induction false} DecimalDigits(n: nat)
    ensures forall k :: 0 <= k < |Decimal(n)| ==> '0' <= Decimal(n)[k] <= '9'
  {
    if n >= 10 {
      DecimalDigits(n / 10);
    }
  }

  /** The number a string of decimal digits stands for, most significant
      digit first. */
  function DigitsValue(r: string): int
  {
    if r == [] then 0 else 10 * DigitsValue(r[..|r| - 1]) + (r[|r| - 1] as int - '0' as int)
  }

  /** The rendering stands for `n`: reading its digits back gives `n`. */
  lemma {:induction false} DecimalValue(n: nat)
    ensures DigitsValue(Decimal(n)) == n
  {
    var r := Decimal(n);
    if n >= 10 {
      DecimalValue(n / 10);
      assert r[..|r| - 1] == Decimal(n / 10);
    }
  }

  /** Different numbers have different renderings. */
  lemma DecimalInjective(m: nat, n: nat)
    ensures Decimal(m) == Decimal(n) <==> m == n
  {
    DecimalValue(m);
    DecimalValue(n);
  }
}
