/** The loss report: intervals of lost sequence numbers as 32-bit words. A word with the top bit set starts an
    interval that ends with the next word; any other word is a single number. */
module Naks {
  import opened SeqNo
  import opened Intervals

  const FLAG := 0x8000_0000

  function EncodeRun(n: Node): seq<int> {
    if n.lo == n.hi then [Wrap(n.lo)] else [Wrap(n.lo) + FLAG, Wrap(n.hi)]
  }

  function EncodeRuns(runs: seq<Node>): seq<int> {
    if runs == [] then [] else EncodeRun(runs[0]) + EncodeRuns(runs[1..])
  }

  /** What a reader makes of the words: pairs of wrapped numbers. */
  function DecodeWords(words: seq<int>): seq<(int, int)> {
    if words == [] then []
    else if words[0] < FLAG then [(words[0], words[0])] + DecodeWords(words[1..])
    else if |words| == 1 then []
    else [(words[0] - FLAG, words[1])] + DecodeWords(words[2..])
  }

  function WrapRuns(runs: seq<Node>): (r: seq<(int, int)>)
    ensures |r| == |runs|
  {
    seq(|runs|, i requires 0 <= i < |runs| => (Wrap(runs[i].lo), Wrap(runs[i].hi)))
  }

  /** Decoding a report gives back exactly the reported intervals. */
  lemma {:induction false} NakRoundTrip(runs: seq<Node>)
    ensures DecodeWords(EncodeRuns(runs)) == WrapRuns(runs)
  {
    if runs != [] {
      NakRoundTrip(runs[1..]);
      var rest := EncodeRuns(runs[1..]);
      var words := EncodeRuns(runs);
      if runs[0].lo == runs[0].hi {
        assert words[1..] == rest;
      } else {
        assert words[2..] == rest;
      }
      assert WrapRuns(runs) == [(Wrap(runs[0].lo), Wrap(runs[0].hi))] + WrapRuns(runs[1..]);
    }
  }

  /** The words do not end inside an interval. */
  predicate Whole(words: seq<int>) {
    words == [] || (if words[0] < FLAG then Whole(words[1..]) else |words| > 1 && Whole(words[2..]))
  }

  /** The words report the intervals; a single number may be reported as an interval, too. */
  ghost predicate Conveys(words: seq<int>, runs: seq<Node>) {
    Whole(words) && DecodeWords(words) == WrapRuns(runs)
  }

  lemma {:induction false} EncodedConveys(runs: seq<Node>)
    ensures Conveys(EncodeRuns(runs), runs)
  {
    NakRoundTrip(runs);
    if runs != [] {
      EncodedConveys(runs[1..]);
      var words := EncodeRuns(runs);
      if runs[0].lo == runs[0].hi {
        assert words[1..] == EncodeRuns(runs[1..]);
      } else {
        assert words[2..] == EncodeRuns(runs[1..]);
      }
    }
  }

  /** The first entry of a report, and the rest. */
  lemma FirstEntry(words: seq<int>, runs: seq<Node>)
    requires Conveys(words, runs) && words != []
    ensures runs != []
    ensures words[0] < FLAG ==>
      words[0] == Wrap(runs[0].lo) == Wrap(runs[0].hi) && Conveys(words[1..], runs[1..])
    ensures words[0] >= FLAG ==>
      && |words| > 1 && words[0] - FLAG == Wrap(runs[0].lo) && words[1] == Wrap(runs[0].hi)
      && Conveys(words[2..], runs[1..])
  {
    var entry := DecodeWords(words)[0];
    assert WrapRuns(runs)[0] == entry;
    assert WrapRuns(runs[1..]) == WrapRuns(runs)[1..];
  }

  lemma NothingConveyed(words: seq<int>, runs: seq<Node>)
    requires Conveys(words, runs) && words == []
    ensures runs == []
  {
  }

  lemma {:induction false} EncodeAppend(runs: seq<Node>, n: Node)
    ensures EncodeRuns(runs + [n]) == EncodeRuns(runs) + EncodeRun(n)
  {
    if runs == [] {
      assert runs + [n] == [n] && [n][1..] == [];
    } else {
      assert (runs + [n])[1..] == runs[1..] + [n];
      EncodeAppend(runs[1..], n);
    }
  }

  /** One interval takes two words, the first with its top bit set; one number takes one. */
  lemma EncodeSingle(n: Node)
    ensures EncodeRuns([n]) == if n.lo == n.hi then [Wrap(n.hi)] else [0x8000_0000 + Wrap(n.lo), Wrap(n.hi)]
  {
    EncodeAppend([], n);
    assert [] + [n] == [n];
  }

  /** The counters in a list of intervals. */
  ghost function Covered(runs: seq<Node>): set<int> {
    set i, x | 0 <= i < |runs| && x in Range(runs[i].lo, runs[i].hi) :: x
  }

  lemma CoveredConcat(a: seq<Node>, b: seq<Node>)
    ensures Covered(a + b) == Covered(a) + Covered(b)
  {
    forall x | x in Covered(a) + Covered(b)
      ensures x in Covered(a + b)
    {
      if x in Covered(a) {
        var i :| 0 <= i < |a| && x in Range(a[i].lo, a[i].hi);
        assert (a + b)[i] == a[i];
      } else {
        var i :| 0 <= i < |b| && x in Range(b[i].lo, b[i].hi);
        assert (a + b)[|a| + i] == b[i];
      }
    }
  }
}
