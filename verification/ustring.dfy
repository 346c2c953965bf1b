/**
 String helpers (`UString`): null-tolerant emptiness, padding, joining,
 repetition, and splitting on a literal separator followed by trimming.
 */
module UString {
  import opened Lang

  /** `UString.empty`: null or of length zero. */
  function Empty(s: Nullable<string>): (r: bool)
    ensures r <==> s.Null? || s.value == ""
  {
    s.Null? || |s.value| == 0
  }

  /** `UString.getNotNull`: the string itself, or `""` for null. */
  function GetNotNull(s: Nullable<string>): (r: string)
    ensures r == "" <==> Empty(s)
    ensures s.NonNull? ==> r == s.value
    ensures Empty(NonNull(r)) == Empty(s)
  {
    if Empty(s) then "" else s.value
  }

  /** `String.startsWith`. */
  predicate StartsWith(s: string, prefix: string)
  {
    prefix <= s
  }

  /** `String.endsWith`. */
  predicate EndsWith(s: string, suffix: string)
  {
    |suffix| <= |s| && s[|s| - |suffix|..] == suffix
  }

  /** The affix a pad adds when it adds one: nothing for null or `""`. */
  function Affix(s: Nullable<string>): string
  {
    GetNotNull(s)
  }

  /**
   `UString.pad`: null counts as `""`; the prefix is added unless the input
   already starts with it, then the suffix unless the prefixed text already
   ends with it, each at most once.
   */
  function Pad(s: Nullable<string>, prefix: Nullable<string>, suffix: Nullable<string>): (r: string)
    ensures StartsWith(r, Affix(prefix))
    ensures EndsWith(r, Affix(suffix))
    ensures var g := GetNotNull(s);
            r == g || r == Affix(prefix) + g || r == g + Affix(suffix) || r == Affix(prefix) + g + Affix(suffix)
    ensures StartsWith(GetNotNull(s), Affix(prefix)) ==> r == GetNotNull(s) || r == GetNotNull(s) + Affix(suffix)
    ensures EndsWith(GetNotNull(s), Affix(suffix)) ==> r == GetNotNull(s) || r == Affix(prefix) + GetNotNull(s)
    ensures StartsWith(GetNotNull(s), Affix(prefix)) && EndsWith(GetNotNull(s), Affix(suffix)) ==> r == GetNotNull(s)
    ensures var g := GetNotNull(s);
            var a := if StartsWith(g, Affix(prefix)) then g else Affix(prefix) + g;
            && (r == a <==> EndsWith(a, Affix(suffix)))
            && (r != a ==> r == a + Affix(suffix))
  {
    var g := GetNotNull(s);
    var a := if !Empty(prefix) && !StartsWith(g, prefix.value) then prefix.value + g else g;
    assert StartsWith(a, Affix(prefix));
    var r := if !Empty(suffix) && !EndsWith(a, suffix.value) then a + suffix.value else a;
    assert r[..|Affix(prefix)|] == a[..|Affix(prefix)|];
    r
  }

  /** The suffix test is made on the prefixed text: "" padded with "/" twice is "/". */
  lemma PadSlashScenario(slash: string)
    requires slash == "/"
    ensures Pad(NonNull(""), NonNull(slash), NonNull(slash)) == slash
  {
    var r := Pad(NonNull(""), NonNull(slash), NonNull(slash));
    assert GetNotNull(NonNull("")) == "" && Affix(NonNull(slash)) == slash;
    assert !StartsWith("", slash) && "" + slash == slash;
    assert EndsWith(slash, slash);
  }

  /** A missing prefix is added before the suffix test: "a" padded with "ab" and "b" is "abab". */
  lemma PadPrefixFirstScenario(a: string, ab: string, b: string)
    requires a == "a" && ab == "ab" && b == "b"
    ensures Pad(NonNull(a), NonNull(ab), NonNull(b)) == ab + a + b
  {
    var r := Pad(NonNull(a), NonNull(ab), NonNull(b));
    assert GetNotNull(NonNull(a)) == a && Affix(NonNull(ab)) == ab && Affix(NonNull(b)) == b;
    assert !StartsWith(a, ab);
    assert !EndsWith(ab + a, b) by { assert (ab + a)[|ab + a| - 1] == 'a'; }
  }

  /** Padding twice is padding once. */
  lemma PadIdempotent(s: Nullable<string>, prefix: Nullable<string>, suffix: Nullable<string>)
    ensures Pad(NonNull(Pad(s, prefix, suffix)), prefix, suffix) == Pad(s, prefix, suffix)
  {
    var r := Pad(s, prefix, suffix);
    assert GetNotNull(NonNull(r)) == r;
  }

  /** What `StringBuilder.append` writes for a possibly-null string. */
  function Text(s: Nullable<string>): string
  {
    if s.Null? then "null" else s.value
  }

  /** The texts of a collection of possibly-null strings, in order. */
  function Texts(c: seq<Nullable<string>>): (r: seq<string>)
    ensures |r| == |c|
    ensures forall i | 0 <= i < |c| :: r[i] == Text(c[i])
  {
    seq(|c|, i requires 0 <= i < |c| => Text(c[i]))
  }

  /** The parts, in order, with `sep` between consecutive parts. */
  function Concat(parts: seq<string>, sep: string): string
  {
    if |parts| == 0 then ""
    else if |parts| == 1 then parts[0]
    else parts[0] + sep + Concat(parts[1..], sep)
  }

  /** Appending one more part adds one separator and the part. */
  lemma {:induction false} ConcatSnoc(parts: seq<string>, x: string, sep: string)
    requires |parts| > 0
    ensures Concat(parts + [x], sep) == Concat(parts, sep) + sep + x
    decreases |parts|
  {
    if |parts| == 1 {
      assert (parts + [x])[1..] == [x];
    } else {
      assert (parts + [x])[1..] == parts[1..] + [x];
      ConcatSnoc(parts[1..], x, sep);
    }
  }

  /** The sum of the lengths of the parts. */
  function TotalLength(parts: seq<string>): nat
  {
    if |parts| == 0 then 0 else |parts[0]| + TotalLength(parts[1..])
  }

  /** A join of n parts holds the parts and exactly n - 1 separators. */
  lemma {:induction false} ConcatLength(parts: seq<string>, sep: string)
    requires |parts| > 0
    ensures |Concat(parts, sep)| == TotalLength(parts) + (|parts| - 1) * |sep|
    decreases |parts|
  {
    if |parts| > 1 {
      ConcatLength(parts[1..], sep);
    }
  }

  /** Reading one more element extends the join of the prefix read so far. */
  lemma JoinPrefixStep(c: seq<Nullable<string>>, i: nat, sep: string)
    requires i < |c|
    ensures i == 0 ==> Concat(Texts(c[..1]), sep) == Text(c[0])
    ensures i > 0 ==> Concat(Texts(c[..i + 1]), sep) == Concat(Texts(c[..i]), sep) + sep + Text(c[i])
  {
    assert Texts(c[..i + 1]) == Texts(c[..i]) + [Text(c[i])];
    if i > 0 {
      ConcatSnoc(Texts(c[..i]), Text(c[i]), sep);
    }
  }

  /**
   `UString.join(Collection, String)`: the texts of the elements in iteration
   order with the separator between consecutive ones.
   */
  method Join(c: seq<Nullable<string>>, sep: string) returns (r: string)
    ensures r == Concat(Texts(c), sep)
    ensures |c| == 0 ==> r == ""
    ensures |c| == 1 ==> r == Text(c[0])
    ensures |c| > 0 ==> StartsWith(r, Text(c[0])) && EndsWith(r, Text(c[|c| - 1]))
  {
    r := JoinLoop(c, sep);
    if |c| > 0 {
      JoinEnds(Texts(c), sep);
    }
  }

  /** The iterator loop of `join`: each text appended, then a separator when another element follows. */
  method JoinLoop(c: seq<Nullable<string>>, sep: string) returns (sb: string)
    ensures sb == Concat(Texts(c), sep)
  {
    sb := "";
    if |c| > 0 {
      var i := 0;
      var hasNext := true;
      while hasNext
        invariant 0 <= i <= |c|
        invariant hasNext <==> i < |c|
        invariant sb == if i == 0 then "" else Concat(Texts(c[..i]), sep) + (if hasNext then sep else "")
        decreases |c| - i
      {
        JoinPrefixStep(c, i, sep);
        sb := sb + Text(c[i]);
        i := i + 1;
        hasNext := i < |c|;
        if hasNext {
          sb := sb + sep;
        }
      }
      assert c[..i] == c;
    }
  }

  /** A join starts with the first part and ends with the last. */
  lemma {:induction false} JoinEnds(parts: seq<string>, sep: string)
    requires |parts| > 0
    ensures StartsWith(Concat(parts, sep), parts[0])
    ensures EndsWith(Concat(parts, sep), parts[|parts| - 1])
    decreases |parts|
  {
    if |parts| > 1 {
      JoinEnds(parts[1..], sep);
      var tail := Concat(parts[1..], sep);
      var whole := parts[0] + sep + tail;
      assert whole[|whole| - |parts[|parts| - 1]|..] == tail[|tail| - |parts[|parts| - 1]|..];
    }
  }

  /** `UString.createCollection(String, int)`: `count` copies of the string; none for `count <= 0`. */
  function Repeat(s: Nullable<string>, count: int): (r: seq<Nullable<string>>)
    ensures |r| == if count > 0 then count else 0
    ensures forall i | 0 <= i < |r| :: r[i] == s
    decreases count
  {
    if count <= 0 then [] else Repeat(s, count - 1) + [s]
  }

  /** `UString.join(String, int, String)`: the join of `count` copies. */
  method JoinRepeated(s: Nullable<string>, count: int, sep: string) returns (r: string)
    ensures r == Concat(Texts(Repeat(s, count)), sep)
    ensures count <= 0 ==> r == ""
    ensures count > 0 ==> |r| == count * |Text(s)| + (count - 1) * |sep|
  {
    var copies := Repeat(s, count);
    r := Join(copies, sep);
    if count > 0 {
      ConcatLength(Texts(copies), sep);
      RepeatTotalLength(Texts(copies), Text(s));
    }
  }

  /** n equal parts have total length n times the length of one. */
  lemma {:induction false} RepeatTotalLength(parts: seq<string>, x: string)
    requires forall i | 0 <= i < |parts| :: parts[i] == x
    ensures TotalLength(parts) == |parts| * |x|
    decreases |parts|
  {
    if |parts| > 0 {
      RepeatTotalLength(parts[1..], x);
    }
  }

  // ---------------------------------------------------------------- trimming

  /** The characters `String.trim` strips: code points up to the space. */
  predicate IsBlank(c: char)
  {
    c <= ' '
  }

  /** Already trimmed: empty, or neither end is blank. */
  predicate IsTrimmed(s: string)
  {
    |s| == 0 || (!IsBlank(s[0]) && !IsBlank(s[|s| - 1]))
  }

  /** The index of the first non-blank character, `|s|` if there is none. */
  function Lead(s: string): (i: nat)
    ensures i <= |s|
    ensures forall k | 0 <= k < i :: IsBlank(s[k])
    ensures i < |s| ==> !IsBlank(s[i])
  {
    if |s| == 0 || !IsBlank(s[0]) then 0 else 1 + Lead(s[1..])
  }

  /** The string without its trailing blanks. */
  function TrimRight(s: string): (r: string)
    ensures r <= s
    ensures forall k | |r| <= k < |s| :: IsBlank(s[k])
    ensures |r| > 0 ==> !IsBlank(r[|r| - 1])
  {
    if |s| > 0 && IsBlank(s[|s| - 1]) then TrimRight(s[..|s| - 1]) else s
  }

  /**
   `String.trim`: the longest slice of the string that neither starts nor
   ends with a blank; everything cut off around it is blank.
   */
  function Trim(s: string): (r: string)
    ensures IsTrimmed(r)
    ensures Lead(s) + |r| <= |s| && r == s[Lead(s)..Lead(s) + |r|]
    ensures forall k | 0 <= k < |s| && !(Lead(s) <= k < Lead(s) + |r|) :: IsBlank(s[k])
  {
    TrimRight(s[Lead(s)..])
  }

  /** Trimming a trimmed string changes nothing. */
  lemma TrimOfTrimmed(s: string)
    requires IsTrimmed(s)
    ensures Trim(s) == s
  {
    assert Lead(s) == 0;
    assert s[0..] == s;
  }

  /** Trimming is idempotent. */
  lemma TrimIdempotent(s: string)
    ensures Trim(Trim(s)) == Trim(s)
  {
    TrimOfTrimmed(Trim(s));
  }

  // --------------------------------------------------------------- splitting

  /** `sep` occurs in `s` at position `k`. */
  predicate OccursAt(s: string, sep: string, k: int)
  {
    0 <= k && k + |sep| <= |s| && s[k..k + |sep|] == sep
  }

  /** `String.indexOf(sep, from)`: the first occurrence at or after `from`, or -1. */
  function IndexOf(s: string, sep: string, from: nat): (i: int)
    requires |sep| > 0
    ensures i == -1 || from <= i
    ensures i >= 0 ==> OccursAt(s, sep, i)
    ensures forall k | from <= k && (i == -1 || k < i) :: !OccursAt(s, sep, k)
    decreases |s| - from
  {
    if from + |sep| > |s| then -1
    else if s[from..from + |sep|] == sep then from
    else IndexOf(s, sep, from + 1)
  }

  /** `sep` does not occur anywhere in `s`. */
  predicate Free(s: string, sep: string)
  {
    forall k | 0 <= k <= |s| :: !OccursAt(s, sep, k)
  }

  /**
   Splitting on every occurrence of a literal separator, left to right: the
   pieces hold no separator and joining them back gives the string.
   */
  function LiteralSplit(s: string, sep: string): (r: seq<string>)
    requires |sep| > 0
    ensures |r| >= 1
    ensures Concat(r, sep) == s
    ensures forall i | 0 <= i < |r| :: Free(r[i], sep)
    ensures |r| == 1 <==> Free(s, sep)
    ensures forall i | 0 <= i < |r| - 1 :: Free(r[i] + sep[..|sep| - 1], sep)
    decreases |s|
  {
    var i := IndexOf(s, sep, 0);
    if i < 0 then [s]
    else
      var rest := LiteralSplit(s[i + |sep|..], sep);
      SplitStep(s, sep, i);
      PrependPiece(s[..i], rest, sep);
      [s[..i]] + rest
  }

  /** Putting a leftmost-cut piece in front of the pieces of the rest keeps every piece property. */
  lemma PrependPiece(head: string, rest: seq<string>, sep: string)
    requires |sep| > 0 && |rest| >= 1
    requires Free(head, sep) && Free(head + sep[..|sep| - 1], sep)
    requires forall i | 0 <= i < |rest| :: Free(rest[i], sep)
    requires forall i | 0 <= i < |rest| - 1 :: Free(rest[i] + sep[..|sep| - 1], sep)
    ensures ([head] + rest)[1..] == rest
    ensures forall i | 0 <= i < |[head] + rest| :: Free(([head] + rest)[i], sep)
    ensures forall i | 0 <= i < |[head] + rest| - 1 :: Free(([head] + rest)[i] + sep[..|sep| - 1], sep)
  {
    var r := [head] + rest;
    assert r[1..] == rest;
    assert forall j | 1 <= j < |r| :: r[j] == rest[j - 1];
  }

  /** Cutting at the first occurrence: the head is free of the separator and the parts rebuild the string. */
  lemma SplitStep(s: string, sep: string, i: nat)
    requires |sep| > 0 && OccursAt(s, sep, i)
    requires forall k | 0 <= k < i :: !OccursAt(s, sep, k)
    ensures s == s[..i] + sep + s[i + |sep|..]
    ensures Free(s[..i], sep)
    ensures Free(s[..i] + sep[..|sep| - 1], sep)
    ensures !Free(s, sep)
  {
    var head := s[..i];
    forall k | 0 <= k <= |head| ensures !OccursAt(head, sep, k) {
      if OccursAt(head, sep, k) {
        assert s[k..k + |sep|] == head[k..k + |sep|];
        assert OccursAt(s, sep, k);
      }
    }
    var longer := s[..i + |sep| - 1];
    assert longer == head + sep[..|sep| - 1] by {
      assert s[i..i + |sep|] == sep;
      assert s[i..i + |sep| - 1] == sep[..|sep| - 1];
      assert s[..i + |sep| - 1] == s[..i] + s[i..i + |sep| - 1];
    }
    forall k | 0 <= k <= |longer| ensures !OccursAt(longer, sep, k) {
      if OccursAt(longer, sep, k) {
        assert s[k..k + |sep|] == longer[k..k + |sep|];
        assert OccursAt(s, sep, k);
      }
    }
    assert s[i..i + |sep|] == sep;
  }

  /** The character `c` does not appear in `s`. */
  predicate Lacks(s: string, c: char)
  {
    forall i | 0 <= i < |s| :: s[i] != c
  }

  lemma LacksConcat(a: string, b: string, c: char)
    requires Lacks(a, c) && Lacks(b, c)
    ensures Lacks(a + b, c)
  {
    forall i | 0 <= i < |a + b| ensures (a + b)[i] != c {
      if i < |a| { assert (a + b)[i] == a[i]; } else { assert (a + b)[i] == b[i - |a|]; }
    }
  }

  /** Without the character there is no one-character separator to split at. */
  lemma LacksFree(s: string, c: char)
    requires Lacks(s, c)
    ensures Free(s, [c])
  {
    forall k | 0 <= k <= |s| ensures !OccursAt(s, [c], k) {
      if k < |s| {
        assert s[k..k + 1] == [s[k]];
      }
    }
  }

  /** A text with exactly one separator character splits into the parts around it. */
  lemma SplitAtOnly(a: string, b: string, c: char)
    requires Lacks(a, c) && Lacks(b, c) && b != ""
    ensures Split(a + [c] + b, [c]) == [a, b]
  {
    var s := a + [c] + b;
    assert OccursAt(s, [c], |a|) by { assert s[|a|..|a| + 1] == [c]; }
    forall k | 0 <= k < |a| ensures !OccursAt(s, [c], k) {
      assert s[k..k + 1][0] == a[k];
    }
    var i := IndexOf(s, [c], 0);
    assert i == |a|;
    LacksFree(b, c);
    assert IndexOf(b, [c], 0) == -1;
    assert LiteralSplit(b, [c]) == [b];
    assert s[..|a|] == a && s[|a| + 1..] == b;
    assert LiteralSplit(s, [c]) == [a, b];
  }

  /** The pieces without the empty ones at the end. */
  function DropTrailingEmpty(p: seq<string>): (r: seq<string>)
    ensures r <= p
    ensures |r| == 0 || r[|r| - 1] != ""
    ensures forall k | |r| <= k < |p| :: p[k] == ""
  {
    if |p| > 0 && p[|p| - 1] == "" then DropTrailingEmpty(p[..|p| - 1]) else p
  }

  /**
   `String.split` with a literal separator: the whole string when the
   separator does not occur, otherwise the pieces with trailing empty pieces
   removed.
   */
  function Split(s: string, sep: string): (r: seq<string>)
    requires |sep| > 0
    ensures Free(s, sep) ==> r == [s]
    ensures !Free(s, sep) ==> r <= LiteralSplit(s, sep) && (|r| == 0 || r[|r| - 1] != "")
    ensures !Free(s, sep) ==> forall k | |r| <= k < |LiteralSplit(s, sep)| :: LiteralSplit(s, sep)[k] == ""
  {
    var p := LiteralSplit(s, sep);
    if |p| == 1 then p else DropTrailingEmpty(p)
  }

  /** The trimmed pieces, in order; empty ones only when `keepEmpty`. */
  function TrimPieces(pieces: seq<string>, keepEmpty: bool): (r: seq<string>)
    ensures |r| <= |pieces|
    ensures forall i | 0 <= i < |r| :: IsTrimmed(r[i])
    ensures !keepEmpty ==> forall i | 0 <= i < |r| :: r[i] != ""
    ensures keepEmpty ==> |r| == |pieces| && forall i | 0 <= i < |r| :: r[i] == Trim(pieces[i])
  {
    if |pieces| == 0 then []
    else
      var t := Trim(pieces[0]);
      var rest := TrimPieces(pieces[1..], keepEmpty);
      if keepEmpty || t != "" then [t] + rest else rest
  }

  /** The non-empty strings, in order. */
  function NonEmpty(s: seq<string>): seq<string>
  {
    if |s| == 0 then [] else if s[0] == "" then NonEmpty(s[1..]) else [s[0]] + NonEmpty(s[1..])
  }

  /** Dropping empty trimmed pieces is filtering the kept-empty result. */
  lemma {:induction false} TrimPiecesDropsEmpty(pieces: seq<string>)
    ensures TrimPieces(pieces, false) == NonEmpty(TrimPieces(pieces, true))
    decreases |pieces|
  {
    if |pieces| > 0 {
      TrimPiecesDropsEmpty(pieces[1..]);
      assert TrimPieces(pieces, true)[1..] == TrimPieces(pieces[1..], true);
    }
  }

  /**
   `UString.breakAndTrimLines`: null counts as `""`; the string is split on
   the separator and every piece trimmed; empty pieces are kept only when
   `returnEmptyLines` is set.
   */
  function BreakAndTrimLines(s: Nullable<string>, sep: string, returnEmptyLines: bool): (r: seq<string>)
    requires |sep| > 0
    ensures forall i | 0 <= i < |r| :: Trim(r[i]) == r[i]
    ensures !returnEmptyLines ==> forall i | 0 <= i < |r| :: r[i] != ""
    ensures var pieces := Split(if s.Null? then "" else s.value, sep);
            returnEmptyLines ==> |r| == |pieces| && forall i | 0 <= i < |r| :: r[i] == Trim(pieces[i])
    ensures !returnEmptyLines ==> r == NonEmpty(BreakAndTrimLinesKeepingEmpty(s, sep))
  {
    var pieces := Split(if s.Null? then "" else s.value, sep);
    var r := TrimPieces(pieces, returnEmptyLines);
    TrimPiecesDropsEmpty(pieces);
    forall i | 0 <= i < |r| ensures Trim(r[i]) == r[i] {
      TrimOfTrimmed(r[i]);
    }
    r
  }

  /** The pieces `BreakAndTrimLines` returns when empty lines are kept. */
  function BreakAndTrimLinesKeepingEmpty(s: Nullable<string>, sep: string): seq<string>
    requires |sep| > 0
  {
    TrimPieces(Split(if s.Null? then "" else s.value, sep), true)
  }

  /** The two-argument `breakAndTrimLines`: empty lines dropped. */
  function BreakAndTrimNonEmptyLines(s: Nullable<string>, sep: string): (r: seq<string>)
    requires |sep| > 0
    ensures forall i | 0 <= i < |r| :: r[i] != "" && Trim(r[i]) == r[i]
    ensures r == NonEmpty(BreakAndTrimLinesKeepingEmpty(s, sep))
  {
    BreakAndTrimLines(s, sep, false)
  }

  /** Without keeping empty lines, a non-null text breaks into its split pieces, trimmed, the empty ones dropped. */
  lemma BreakNonEmptyPieces(s: string, sep: string)
    requires |sep| > 0
    ensures BreakAndTrimNonEmptyLines(NonNull(s), sep) == TrimPieces(Split(s, sep), false)
  {
  }

  /**
   `UString.splitAndTrim` as written: its loop trims `split[0]` once per
   piece, so only the first piece is trimmed and the others are returned as
   split.
   */
  method SplitAndTrim(s: string, sep: string) returns (r: seq<string>)
    requires |sep| > 0
    ensures var split := Split(s, sep);
            |r| == |split| && (|r| > 0 ==> r[0] == Trim(split[0]))
            && forall i | 1 <= i < |r| :: r[i] == split[i]
  {
    var split := Split(s, sep);
    var length := |split|;
    var i := 0;
    ghost var original := split;
    while i < length
      invariant 0 <= i <= length == |split| == |original|
      invariant i == 0 ==> split == original
      invariant i > 0 ==> split == original[0 := Trim(original[0])]
    {
      var trim := Trim(split[0]);
      TrimIdempotent(original[0]);
      if trim != split[0] {
        split := split[0 := trim];
      }
      i := i + 1;
    }
    r := split;
  }

  /** What `splitAndTrim` evidently means to do: trim every piece. */
  function SplitAndTrimEach(s: string, sep: string): (r: seq<string>)
    requires |sep| > 0
    ensures |r| == |Split(s, sep)|
    ensures forall i | 0 <= i < |r| :: r[i] == Trim(Split(s, sep)[i]) && IsTrimmed(r[i])
  {
    TrimPieces(Split(s, sep), true)
  }

  /**
   Splitting "a, b" at ",", or any text of two parts around one separator
   whose second part starts with a blank: the code as written returns the
   second part as it is, the corrected code trims it.
   */
  lemma SplitAndTrimKeepsLaterBlanks(a: string, b: string, c: char)
    requires Lacks(a, c) && Lacks(b, c) && |b| > 0 && IsBlank(b[0])
    ensures Split(a + [c] + b, [c]) == [a, b]
    ensures SplitAndTrimEach(a + [c] + b, [c]) == [Trim(a), Trim(b)]
    ensures Trim(b) != b
  {
    SplitAtOnly(a, b, c);
    assert !IsTrimmed(b);
  }
}
