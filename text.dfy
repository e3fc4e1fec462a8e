/**
 * Strings as the pipeline treats them: the two tokenisers (a regular
 * expression `\b\w+\b` and `str.split()` without arguments), both of which
 * take the maximal runs of one class of characters, lower-casing, and
 * `str.join`.
 */
module Text {
  import opened Seqs

  /** A regular-expression word character (`\w`), ASCII only. */
  predicate IsWordChar(c: char) {
    ('a' <= c <= 'z') || ('A' <= c <= 'Z') || ('0' <= c <= '9') || c == '_'
  }

  /** A character `str.isspace()` accepts, i.e. a separator for `str.split()`. */
  predicate IsSpace(c: char) {
    || ('\t' <= c <= '\r')
    || ('\U{1c}' <= c <= '\U{1f}')
    || c == ' ' || c == '\U{85}' || c == '\U{a0}' || c == '\U{1680}'
    || ('\U{2000}' <= c <= '\U{200a}')
    || c == '\U{2028}' || c == '\U{2029}' || c == '\U{202f}' || c == '\U{205f}' || c == '\U{3000}'
  }

  /** The class whose maximal runs a tokeniser returns. */
  datatype CharClass = WordChars | NonSpace

  predicate InClass(c: char, cls: CharClass) {
    match cls
    case WordChars => IsWordChar(c)
    case NonSpace => !IsSpace(c)
  }

  predicate AllInClass(s: string, cls: CharClass) {
    forall i :: 0 <= i < |s| ==> InClass(s[i], cls)
  }

  /** The length of the run of class characters that starts `s`. */
  function RunLength(s: string, cls: CharClass): (n: nat)
    requires |s| > 0 && InClass(s[0], cls)
    ensures 1 <= n <= |s|
    ensures AllInClass(s[..n], cls)
    ensures n == |s| || !InClass(s[n], cls)
    decreases |s|
  {
    if |s| == 1 || !InClass(s[1], cls) then 1 else 1 + RunLength(s[1..], cls)
  }

  /** The maximal runs of class characters in `s`, left to right. */
  function Runs(s: string, cls: CharClass): seq<string>
    decreases |s|
  {
    if |s| == 0 then []
    else if !InClass(s[0], cls) then Runs(s[1..], cls)
    else
      var n := RunLength(s, cls);
      [s[..n]] + Runs(s[n..], cls)
  }

  /** Every token is a non-empty run of class characters. */
  lemma {:induction false} RunsAreTokens(s: string, cls: CharClass)
    ensures forall i :: 0 <= i < |Runs(s, cls)| ==> |Runs(s, cls)[i]| > 0 && AllInClass(Runs(s, cls)[i], cls)
    decreases |s|
  {
    if |s| > 0 {
      if !InClass(s[0], cls) {
        RunsAreTokens(s[1..], cls);
      } else {
        RunsAreTokens(s[RunLength(s, cls)..], cls);
      }
    }
  }

  /** `re.findall(r'\b\w+\b', s)`. */
  function Words(s: string): seq<string> {
    Runs(s, WordChars)
  }

  /** `len(s.split())`. */
  function WordCount(s: string): nat {
    |Runs(s, NonSpace)|
  }

  /** The run length at the head of `a` does not look past a class boundary. */
  lemma RunLengthStopsAtBoundary(a: string, b: string, cls: CharClass)
    requires |a| > 0 && InClass(a[0], cls)
    requires |b| > 0 && !InClass(b[0], cls)
    ensures RunLength(a + b, cls) == RunLength(a, cls)
  {
    var n := RunLength(a, cls);
    forall i | 0 <= i < n
      ensures InClass((a + b)[i], cls)
    {
      assert (a + b)[i] == a[..n][i];
    }
    if n < |a| {
      assert (a + b)[n] == a[n];
    } else {
      assert (a + b)[n] == b[0];
    }
    RunLengthUnique(a + b, cls, n);
  }

  /** A run length is the one prefix length made of class characters and followed by a non-class character or the end. */
  lemma {:induction false} RunLengthUnique(s: string, cls: CharClass, m: nat)
    requires |s| > 0 && InClass(s[0], cls)
    requires 1 <= m <= |s| && forall i :: 0 <= i < m ==> InClass(s[i], cls)
    requires m == |s| || !InClass(s[m], cls)
    ensures RunLength(s, cls) == m
    decreases |s|
  {
    if m > 1 {
      assert InClass(s[1], cls);
      forall i | 0 <= i < m - 1
        ensures InClass(s[1..][i], cls)
      {
        assert s[1..][i] == s[i + 1];
      }
      if m < |s| {
        assert s[1..][m - 1] == s[m];
      }
      RunLengthUnique(s[1..], cls, m - 1);
    }
  }

  /** A separator splits tokenisation: what lies before it and what lies after it are tokenised apart. */
  lemma {:induction false} RunsSplitAtSeparator(a: string, t: string, cls: CharClass)
    requires |t| > 0 && !InClass(t[0], cls)
    ensures Runs(a + t, cls) == Runs(a, cls) + Runs(t[1..], cls)
    decreases |a|
  {
    if |a| == 0 {
      assert a + t == t;
    } else if !InClass(a[0], cls) {
      assert (a + t)[1..] == a[1..] + t;
      RunsSplitAtSeparator(a[1..], t, cls);
    } else {
      var n := RunLength(a, cls);
      if n < |a| {
        RunsSplitAtSeparator(a[n..], t, cls);
      }
      RunsSplitAfterRun(a, t, cls);
    }
  }

  /** The step of `RunsSplitAtSeparator` where `a` starts with a token. */
  lemma RunsSplitAfterRun(a: string, t: string, cls: CharClass)
    requires |a| > 0 && InClass(a[0], cls)
    requires |t| > 0 && !InClass(t[0], cls)
    requires var n := RunLength(a, cls);
      n < |a| ==> Runs(a[n..] + t, cls) == Runs(a[n..], cls) + Runs(t[1..], cls)
    ensures Runs(a + t, cls) == Runs(a, cls) + Runs(t[1..], cls)
  {
    var n := RunLength(a, cls);
    RunsAfterFirstRun(a, t, cls);
    var tail := Runs(a[n..], cls);
    assert Runs(a, cls) == [a[..n]] + tail;
    assert Runs(a[n..] + t, cls) == tail + Runs(t[1..], cls) by {
      if n == |a| {
        assert a[n..] + t == t;
      }
    }
    ConcatAssoc([a[..n]], tail, Runs(t[1..], cls));
  }

  lemma ConcatAssoc<T>(x: seq<T>, y: seq<T>, z: seq<T>)
    ensures x + (y + z) == (x + y) + z
  {
  }

  /** When `a` starts with a token and `t` with a separator, the first token of `a + t` is that of `a`. */
  lemma RunsAfterFirstRun(a: string, t: string, cls: CharClass)
    requires |a| > 0 && InClass(a[0], cls)
    requires |t| > 0 && !InClass(t[0], cls)
    ensures Runs(a + t, cls) == [a[..RunLength(a, cls)]] + Runs(a[RunLength(a, cls)..] + t, cls)
  {
    var n := RunLength(a, cls);
    var s := a + t;
    assert s[0] == a[0];
    RunLengthStopsAtBoundary(a, t, cls);
    assert Runs(s, cls) == [s[..n]] + Runs(s[n..], cls);
    assert s[..n] == a[..n];
    assert s[n..] == a[n..] + t;
  }

  /** A non-empty string made only of class characters is one token. */
  lemma RunsOfRun(s: string, cls: CharClass)
    requires |s| > 0 && AllInClass(s, cls)
    ensures Runs(s, cls) == [s]
  {
    var n := RunLength(s, cls);
    assert n == |s|;
    assert s[..n] == s;
  }

  /** Two runs of class characters around one separator are two tokens. */
  lemma TwoRuns(a: string, c: char, b: string, cls: CharClass)
    requires |a| > 0 && AllInClass(a, cls) && |b| > 0 && AllInClass(b, cls) && !InClass(c, cls)
    ensures Runs(a + [c] + b, cls) == [a, b]
  {
    assert a + [c] + b == a + ([c] + b);
    assert ([c] + b)[1..] == b;
    RunsSplitAtSeparator(a, [c] + b, cls);
    RunsOfRun(a, cls);
    RunsOfRun(b, cls);
  }

  /** A string with no class character has no token; in particular `''.split()` is empty. */
  lemma {:induction false} RunsOfSeparators(s: string, cls: CharClass)
    requires forall i :: 0 <= i < |s| ==> !InClass(s[i], cls)
    ensures Runs(s, cls) == []
    decreases |s|
  {
    if |s| > 0 {
      RunsOfSeparators(s[1..], cls);
    }
  }

  /** `str.lower()` on one character: ASCII capitals become small letters. */
  function LowerChar(c: char): char {
    if 'A' <= c <= 'Z' then (c as int + 32) as char else c
  }

  /** `str.lower()`. */
  function Lower(s: string): (r: string)
    ensures |r| == |s|
    ensures forall i :: 0 <= i < |s| ==> r[i] == LowerChar(s[i])
    decreases |s|
  {
    if |s| == 0 then [] else [LowerChar(s[0])] + Lower(s[1..])
  }

  /** `sep.join(ss)`. */
  function Join(ss: seq<string>, sep: string): string
    decreases |ss|
  {
    if |ss| == 0 then ""
    else if |ss| == 1 then ss[0]
    else ss[0] + sep + Join(ss[1..], sep)
  }

  /** Lower-casing a join of space-separated parts is the join of the lower-cased parts. */
  lemma {:induction false} LowerJoin(ss: seq<string>)
    ensures Lower(Join(ss, " ")) == Join(Map(ss, Lower), " ")
    decreases |ss|
  {
    if |ss| >= 2 {
      var rest := Join(ss[1..], " ");
      LowerJoin(ss[1..]);
      LowerConcat(ss[0] + " ", rest);
      LowerConcat(ss[0], " ");
      assert Lower(" ") == " ";
      var m := Map(ss, Lower);
      assert m[1..] == Map(ss[1..], Lower);
      assert Join(m, " ") == m[0] + " " + Join(m[1..], " ");
    }
  }

  lemma {:induction false} LowerConcat(a: string, b: string)
    ensures Lower(a + b) == Lower(a) + Lower(b)
    decreases |a|
  {
    if |a| == 0 {
      assert a + b == b;
    } else {
      assert (a + b)[1..] == a[1..] + b;
      LowerConcat(a[1..], b);
      ConcatAssoc([LowerChar(a[0])], Lower(a[1..]), Lower(b));
    }
  }

  /** A space join is empty exactly when there is no part, or one empty part. */
  lemma JoinEmptyIff(ss: seq<string>)
    ensures Join(ss, " ") == "" <==> |ss| == 0 || (|ss| == 1 && ss[0] == "")
  {
    if |ss| >= 2 {
      assert |Join(ss, " ")| >= 1;
    }
  }

  /** Concatenation of a sequence of token lists. */
  function Flatten(tss: seq<seq<string>>): seq<string>
    decreases |tss|
  {
    if |tss| == 0 then [] else tss[0] + Flatten(tss[1..])
  }

  /** Each part filtered on its own. */
  function FilterEach(tss: seq<seq<string>>, p: string -> bool): (r: seq<seq<string>>)
    ensures |r| == |tss|
    ensures forall i :: 0 <= i < |tss| ==> r[i] == Filter(tss[i], p)
    decreases |tss|
  {
    if |tss| == 0 then [] else [Filter(tss[0], p)] + FilterEach(tss[1..], p)
  }

  /** Filtering the concatenated parts is concatenating the filtered parts. */
  lemma {:induction false} FilterFlatten(tss: seq<seq<string>>, p: string -> bool)
    ensures Filter(Flatten(tss), p) == Flatten(FilterEach(tss, p))
    decreases |tss|
  {
    if |tss| > 0 {
      FilterConcat(tss[0], Flatten(tss[1..]), p);
      FilterFlatten(tss[1..], p);
    }
  }

  /** Tokenising a join over a separator character tokenises each part on its own: no token spans two parts. */
  lemma {:induction false} RunsOfJoin(ss: seq<string>, c: char, cls: CharClass)
    requires !InClass(c, cls)
    ensures Runs(Join(ss, [c]), cls) == Flatten(Map(ss, (s: string) => Runs(s, cls)))
    decreases |ss|
  {
    var f := (s: string) => Runs(s, cls);
    if |ss| == 1 {
      assert Flatten(Map(ss, f)) == Runs(ss[0], cls) + Flatten([]);
    } else if |ss| >= 2 {
      RunsOfJoin(ss[1..], c, cls);
      assert Map(ss, f)[1..] == Map(ss[1..], f);
      var rest := Join(ss[1..], [c]);
      assert ss[0] + [c] + rest == ss[0] + ([c] + rest);
      assert ([c] + rest)[1..] == rest;
      RunsSplitAtSeparator(ss[0], [c] + rest, cls);
    }
  }
}
