/** Joining lines with a separator and splitting a string back into lines,
    as Python's `"\n".join(lines)` and `s.split("\n")` do. */
module Text {

  /** The separator placed between consecutive lines. */
  const Newline: char := '\n'

  /** Sum of the lengths of the lines. */
  function TotalLength(lines: seq<string>): nat
  {
    if |lines| == 0 then 0 else |lines[0]| + TotalLength(lines[1..])
  }

  /** Lines all of length `width` have total length `|lines| * width`. */
  lemma {:induction false} TotalLengthOfEqualLines(lines: seq<string>, width: nat)
    requires forall i :: 0 <= i < |lines| ==> |lines[i]| == width
    ensures TotalLength(lines) == |lines| * width
  {
    if |lines| > 0 {
      TotalLengthOfEqualLines(lines[1..], width);
      assert |lines| * width == width + (|lines| - 1) * width;
    }
  }

  /** True when no line contains the separator. */
  predicate NewlineFree(lines: seq<string>)
  {
    forall i :: 0 <= i < |lines| ==> Newline !in lines[i]
  }

  /** `"\n".join(lines)`: the lines in order, one separator between each
      consecutive pair, none before the first or after the last. */
  function JoinLines(lines: seq<string>): (s: string)
    ensures |lines| == 0 ==> s == ""
    ensures |lines| > 0 ==> |s| == TotalLength(lines) + |lines| - 1
  {
    if |lines| == 0 then ""
    else if |lines| == 1 then lines[0]
    else lines[0] + [Newline] + JoinLines(lines[1..])
  }

  /** `s.split("\n")`: the maximal separator-free pieces of `s`, in order.
      Like Python's, it never returns an empty list: `"".split("\n") == [""]`. */
  function SplitLines(s: string): (lines: seq<string>)
    ensures |lines| > 0 && NewlineFree(lines)
  {
    if |s| == 0 then [""]
    else
      var rest := SplitLines(s[1..]);
      if s[0] == Newline then [""] + rest
      else [[s[0]] + rest[0]] + rest[1..]
  }

  /** There is one more piece than there are separators. */
  lemma {:induction false} SplitLinesCount(s: string)
    ensures |SplitLines(s)| == multiset(s)[Newline] + 1
  {
    if |s| > 0 {
      SplitLinesCount(s[1..]);
      assert s == [s[0]] + s[1..];
    }
  }

  /** Splitting a separator-free prefix followed by `t` glues the prefix to
      the first piece of `t`. */
  lemma {:induction false} SplitAfterPrefix(a: string, t: string)
    requires Newline !in a
    ensures SplitLines(a + t) == [a + SplitLines(t)[0]] + SplitLines(t)[1..]
  {
    var pieces := SplitLines(t);
    if |a| == 0 {
      assert a + t == t;
      assert a + pieces[0] == pieces[0];
      assert pieces == [pieces[0]] + pieces[1..];
    } else {
      assert (a + t)[1..] == a[1..] + t;
      SplitAfterPrefix(a[1..], t);
      assert [a[0]] + (a[1..] + SplitLines(t)[0]) == a + SplitLines(t)[0];
    }
  }

  /** Splitting what was joined gives the lines back, as long as there is at
      least one line and none of them contains the separator. */
  lemma {:induction false} SplitJoin(lines: seq<string>)
    requires |lines| > 0 && NewlineFree(lines)
    ensures SplitLines(JoinLines(lines)) == lines
  {
    if |lines| == 1 {
      SplitAfterPrefix(lines[0], "");
      assert lines[0] + "" == lines[0];
    } else {
      var tail := JoinLines(lines[1..]);
      assert JoinLines(lines) == lines[0] + ([Newline] + tail);
      SplitJoin(lines[1..]);
      assert SplitLines([Newline] + tail) == [""] + lines[1..] by {
        assert ([Newline] + tail)[1..] == tail;
      }
      SplitAfterPrefix(lines[0], [Newline] + tail);
      assert lines[0] + "" == lines[0];
      assert lines == [lines[0]] + lines[1..];
    }
  }

  /** Joining what was split gives the string back, for every string. */
  lemma {:induction false} JoinSplit(s: string)
    ensures JoinLines(SplitLines(s)) == s
  {
    if |s| > 0 {
      var rest := SplitLines(s[1..]);
      JoinSplit(s[1..]);
      assert s == [s[0]] + s[1..];
      if s[0] == Newline {
        assert SplitLines(s) == [""] + rest;
        assert JoinLines([""] + rest) == "" + [Newline] + JoinLines(rest) by {
          assert ([""] + rest)[1..] == rest;
        }
      } else if |rest| == 1 {
        assert SplitLines(s) == [[s[0]] + rest[0]];
      } else {
        var first := [s[0]] + rest[0];
        assert SplitLines(s) == [first] + rest[1..];
        assert JoinLines(rest) == rest[0] + [Newline] + JoinLines(rest[1..]);
        assert JoinLines([first] + rest[1..]) == first + [Newline] + JoinLines(rest[1..]) by {
          assert ([first] + rest[1..])[1..] == rest[1..];
        }
      }
    }
  }

  /** Every character of `s` is the separator or drawn from `alphabet`. */
  predicate DrawnFrom(s: string, alphabet: set<char>)
  {
    forall k :: 0 <= k < |s| ==> s[k] == Newline || s[k] in alphabet
  }

  /** Joining adds no character other than the separator. */
  lemma {:induction false} JoinDrawnFrom(lines: seq<string>, alphabet: set<char>)
    requires forall i :: 0 <= i < |lines| ==> DrawnFrom(lines[i], alphabet)
    ensures DrawnFrom(JoinLines(lines), alphabet)
  {
    if |lines| > 1 {
      JoinDrawnFrom(lines[1..], alphabet);
      var tail := JoinLines(lines[1..]);
      forall k | 0 <= k < |JoinLines(lines)|
        ensures JoinLines(lines)[k] == Newline || JoinLines(lines)[k] in alphabet
      {
        if k > |lines[0]| {
          assert JoinLines(lines)[k] == tail[k - |lines[0]| - 1];
        }
      }
    }
  }

  /** The joined string ends with the last character of the last line: no
      separator is appended after it. */
  lemma {:induction false} JoinEndsWithLastLine(lines: seq<string>)
    requires |lines| > 0 && |lines[|lines| - 1]| > 0
    ensures var s := JoinLines(lines);
      |s| > 0 && s[|s| - 1] == lines[|lines| - 1][|lines[|lines| - 1]| - 1]
  {
    if |lines| > 1 {
      JoinEndsWithLastLine(lines[1..]);
    }
  }
}
