/**
 The pieces of Go's `strings` package the program uses: `Join`, `Split` with a
 one-character separator, and `TrimSpace` with the white-space test of
 `unicode.IsSpace`.
 */
module Strings {

  /** `unicode.IsSpace`: the Latin-1 spaces and the other Unicode White_Space characters. */
  predicate IsSpace(c: char)
  {
    || c == '\t' || c == '\n' || c == '\U{B}' || c == '\U{C}' || c == '\r' || c == ' '
    || c == '\U{85}' || c == '\U{A0}' || c == '\U{1680}'
    || ('\U{2000}' <= c <= '\U{200A}')
    || c == '\U{2028}' || c == '\U{2029}' || c == '\U{202F}' || c == '\U{205F}' || c == '\U{3000}'
  }

  /** Drops the leading white space: the result is a suffix of s, what was cut is all white space. */
  function TrimLeft(s: string): (r: string)
    ensures |r| <= |s| && r == s[|s| - |r|..]
    ensures forall i :: 0 <= i < |s| - |r| ==> IsSpace(s[i])
    ensures r == "" || !IsSpace(r[0])
    decreases |s|
  {
    if |s| > 0 && IsSpace(s[0]) then TrimLeft(s[1..]) else s
  }

  /** Drops the trailing white space: the result is a prefix of s, what was cut is all white space. */
  function TrimRight(s: string): (r: string)
    ensures |r| <= |s| && r == s[..|r|]
    ensures forall i :: |r| <= i < |s| ==> IsSpace(s[i])
    ensures r == "" || !IsSpace(r[|r| - 1])
    decreases |s|
  {
    if |s| > 0 && IsSpace(s[|s| - 1]) then TrimRight(s[..|s| - 1]) else s
  }

  ghost predicate AllSpace(t: string)
  {
    forall k :: 0 <= k < |t| ==> IsSpace(t[k])
  }

  /** `strings.TrimSpace`: s without its leading and trailing white space. */
  function TrimSpace(s: string): (r: string)
    ensures exists i :: 0 <= i <= |s| - |r| && r <= s[i..] && AllSpace(s[..i]) && AllSpace(s[i + |r|..])
    ensures r == "" || (!IsSpace(r[0]) && !IsSpace(r[|r| - 1]))
  {
    TrimBothEnds(s);
    TrimEdges(s);
    TrimRight(TrimLeft(s))
  }

  /** Trimming left then right leaves a middle piece of s with only white space cut off either side. */
  lemma TrimBothEnds(s: string)
    ensures var r := TrimRight(TrimLeft(s)); var i := |s| - |TrimLeft(s)|;
            && 0 <= i <= |s| - |r| && r <= s[i..] && AllSpace(s[..i]) && AllSpace(s[i + |r|..])
  {
    TrimLeftCut(s);
    TrimMiddle(s);
    TrimRightCut(s);
  }

  lemma TrimLeftCut(s: string)
    ensures var i := |s| - |TrimLeft(s)|; AllSpace(s[..i])
  {
  }

  lemma TrimMiddle(s: string)
    ensures var r := TrimRight(TrimLeft(s)); var i := |s| - |TrimLeft(s)|;
            0 <= i <= |s| - |r| && r <= s[i..]
  {
  }

  lemma TrimRightCut(s: string)
    ensures var r := TrimRight(TrimLeft(s)); var i := |s| - |TrimLeft(s)|;
            i + |r| <= |s| && AllSpace(s[i + |r|..])
  {
    var left := TrimLeft(s);
    var r := TrimRight(left);
    var i := |s| - |left|;
    AllSpaceFrom(left, |r|);
    SliceOfSuffix(s, i, |r|);
  }

  lemma AllSpaceFrom(t: string, j: nat)
    requires j <= |t| && forall k :: j <= k < |t| ==> IsSpace(t[k])
    ensures AllSpace(t[j..])
  {
    var tail := t[j..];
    forall k | 0 <= k < |tail| ensures IsSpace(tail[k]) {
      assert tail[k] == t[j + k];
    }
  }

  lemma SliceOfSuffix(s: string, i: nat, j: nat)
    requires i + j <= |s|
    ensures s[i..][j..] == s[i + j..]
  {
  }

  /** Neither end of the trimmed string is white space. */
  lemma TrimEdges(s: string)
    ensures var r := TrimRight(TrimLeft(s)); r == "" || (!IsSpace(r[0]) && !IsSpace(r[|r| - 1]))
  {
    var left := TrimLeft(s);
    var r := TrimRight(left);
    if r != "" {
      assert r[0] == left[0];
    }
  }

  /** Trimming a string that neither starts nor ends with white space, followed by one line break, only drops the line break. */
  lemma TrimSpaceLine(s: string)
    requires s == "" || (!IsSpace(s[0]) && !IsSpace(s[|s| - 1]))
    ensures TrimSpace(s + "\n") == s
  {
    var t := s + "\n";
    if s == "" {
      assert TrimLeft(t) == TrimLeft(t[1..]);
      assert t[1..] == "";
    } else {
      assert TrimLeft(t) == t;
      assert t[..|t| - 1] == s;
      assert TrimRight(t) == TrimRight(s);
    }
  }

  /** `strings.Join`: the parts, with sep between each two neighbours. */
  function Join(parts: seq<string>, sep: string): string
  {
    if |parts| == 0 then ""
    else if |parts| == 1 then parts[0]
    else parts[0] + sep + Join(parts[1..], sep)
  }

  /** Appending one more part adds one separator and the part at the end. */
  lemma {:induction false} JoinSnoc(parts: seq<string>, p: string, sep: string)
    requires |parts| > 0
    ensures Join(parts + [p], sep) == Join(parts, sep) + sep + p
  {
    if |parts| > 1 {
      assert (parts + [p])[1..] == parts[1..] + [p];
      JoinSnoc(parts[1..], p, sep);
    } else {
      assert (parts + [p])[1..] == [p];
    }
  }

  /**
   `strings.Split(s, [sep])`: the pieces of s between the occurrences of sep.
   There is always one more piece than there are separators, none of them
   holds sep, and joining them back gives s.
   */
  function Split(s: string, sep: char): (parts: seq<string>)
    ensures |parts| >= 1
    ensures forall p :: p in parts ==> sep !in p
    decreases |s|
  {
    if |s| == 0 then [""]
    else
      var rest := Split(s[1..], sep);
      if s[0] == sep then [""] + rest
      else [[s[0]] + rest[0]] + rest[1..]
  }

  /** One more piece than there are separators. */
  lemma {:induction false} SplitCount(s: string, sep: char)
    ensures |Split(s, sep)| == multiset(s)[sep] + 1
    decreases |s|
  {
    if |s| > 0 {
      SplitCount(s[1..], sep);
      assert s == [s[0]] + s[1..];
    }
  }

  /** Putting one character in front of the first part puts it in front of the join. */
  lemma JoinPrepend(c: char, parts: seq<string>, sep: string)
    requires |parts| > 0
    ensures Join([[c] + parts[0]] + parts[1..], sep) == [c] + Join(parts, sep)
  {
    var longer := [[c] + parts[0]] + parts[1..];
    assert longer[1..] == parts[1..];
  }

  lemma {:induction false} JoinSplit(s: string, sep: char)
    ensures Join(Split(s, sep), [sep]) == s
    decreases |s|
  {
    if |s| > 0 {
      JoinSplit(s[1..], sep);
      JoinSplitCons(s[0], s[1..], sep);
      assert s == [s[0]] + s[1..];
    }
  }

  /** The step of JoinSplit: one more character in front. */
  lemma JoinSplitCons(c: char, t: string, sep: char)
    requires Join(Split(t, sep), [sep]) == t
    ensures Join(Split([c] + t, sep), [sep]) == [c] + t
  {
    var s := [c] + t;
    var rest := Split(t, sep);
    assert s[1..] == t;
    if c == sep {
      assert Split(s, sep) == [""] + rest;
      assert ([""] + rest)[1..] == rest;
    } else {
      assert Split(s, sep) == [[c] + rest[0]] + rest[1..];
      JoinPrepend(c, rest, [sep]);
    }
  }

  /** A string free of the separator is a single piece. */
  lemma {:induction false} SplitFree(p: string, sep: char)
    requires sep !in p
    ensures Split(p, sep) == [p]
    decreases |p|
  {
    if |p| > 0 {
      SplitFree(p[1..], sep);
      assert p == [p[0]] + p[1..];
    }
  }

  /** A first piece free of the separator comes off as the first part. */
  lemma {:induction false} SplitAtSep(p: string, r: string, sep: char)
    requires sep !in p
    ensures Split(p + [sep] + r, sep) == [p] + Split(r, sep)
    decreases |p|
  {
    if |p| > 0 {
      var t := p[1..] + [sep] + r;
      SplitAtSep(p[1..], r, sep);
      ConsConcat(p, [sep], r);
      SplitCons(p[0], t, sep);
      FirstAndRest(p[1..], Split(r, sep));
      assert [p[0]] + p[1..] == p;
    } else {
      assert p + [sep] + r == [sep] + r;
      SplitCons(sep, r, sep);
    }
  }

  lemma ConsConcat(p: string, a: string, b: string)
    requires |p| > 0
    ensures p + a + b == [p[0]] + (p[1..] + a + b)
  {
  }

  lemma FirstAndRest(x: string, ys: seq<string>)
    ensures ([x] + ys)[0] == x && ([x] + ys)[1..] == ys
  {
  }

  /** Split, one character at a time. */
  lemma SplitCons(c: char, t: string, sep: char)
    ensures c == sep ==> Split([c] + t, sep) == [""] + Split(t, sep)
    ensures c != sep ==> Split([c] + t, sep) == [[c] + Split(t, sep)[0]] + Split(t, sep)[1..]
  {
    assert ([c] + t)[1..] == t;
  }

  /** Splitting a join of pieces free of the separator gives back the pieces. */
  lemma {:induction false} SplitJoin(parts: seq<string>, sep: char)
    requires |parts| > 0
    requires forall p :: p in parts ==> sep !in p
    ensures Split(Join(parts, [sep]), sep) == parts
    decreases |parts|
  {
    var p := parts[0];
    assert sep !in p by { assert p in parts; }
    if |parts| == 1 {
      SplitFree(p, sep);
    } else {
      var tail := parts[1..];
      assert forall q :: q in tail ==> q in parts;
      SplitJoin(tail, sep);
      SplitAtSep(p, Join(tail, [sep]), sep);
      assert parts == [p] + tail;
    }
  }
}
