/**
 * Streamizing a tile for `CPSRMatrix` (cyclic packed streams of rows): the
 * tile's rows are dealt round-robin to `num_streams` streams, row `rid` to
 * stream `rid % num_streams`, each row's (index, value) pairs followed by a
 * row-advance marker.
 */
module Streams {
  import opened Csr

  /** One pack slot of a channel word: a column index (or the marker) and a value. */
  datatype Packet = Packet(index: nat, value: int)

  /** The index that closes a row in a stream. */
  const NextRowMarker: nat := 0xFFFF_FFFF

  /** The row-advance marker the encoder appends after every row: marker index, value 1. */
  const Marker: Packet := Packet(NextRowMarker, 1)

  /** What padding and freshly resized words hold: index 0, value 0. */
  const Pad: Packet := Packet(0, 0)

  // ---------------------------------------------------------------------------
  // Streamizing
  // ---------------------------------------------------------------------------

  /** Row `r` of a tile as packets, in storage order. */
  function RowPackets(m: CsrMatrix, r: nat): (ps: seq<Packet>)
    requires Valid(m) && r < m.numRows
    ensures |ps| == |RowEntries(m, r)|
    ensures forall x :: 0 <= x < |ps| ==>
              ps[x] == Packet(RowEntries(m, r)[x].col, RowEntries(m, r)[x].val)
  {
    var es := RowEntries(m, r);
    seq(|es|, x requires 0 <= x < |es| => Packet(es[x].col, es[x].val))
  }

  /** Stream `s` after the streamizing loop has visited rows `[0, n)`. */
  function StreamUpTo(m: CsrMatrix, numStreams: nat, s: nat, n: nat): seq<Packet>
    requires Valid(m) && numStreams > 0 && n <= m.numRows
  {
    if n == 0 then []
    else StreamUpTo(m, numStreams, s, n - 1)
           + (if (n - 1) % numStreams == s then RowPackets(m, n - 1) + [Marker] else [])
  }

  /** Stream `s` of a tile cut into `numStreams` streams. */
  function Stream(m: CsrMatrix, numStreams: nat, s: nat): seq<Packet>
    requires Valid(m) && numStreams > 0
  {
    StreamUpTo(m, numStreams, s, m.numRows)
  }

  /** The rows among `[0, n)` that go to stream `s`, in visiting order. */
  function LaneRowIds(n: nat, numStreams: nat, s: nat): seq<nat>
    requires numStreams > 0
  {
    if n == 0 then []
    else LaneRowIds(n - 1, numStreams, s) + (if (n - 1) % numStreams == s then [n - 1] else [])
  }

  predicate RowIdsBelow(ids: seq<nat>, n: nat) {
    forall t :: 0 <= t < |ids| ==> ids[t] < n
  }

  /** A row's packets followed by the marker, for each listed row. */
  function JoinRows(m: CsrMatrix, ids: seq<nat>): seq<Packet>
    requires Valid(m) && RowIdsBelow(ids, m.numRows)
    decreases |ids|
  {
    if |ids| == 0 then []
    else JoinRows(m, ids[..|ids| - 1]) + RowPackets(m, ids[|ids| - 1]) + [Marker]
  }

  lemma MulLessCancel(a: nat, b: nat, d: nat)
    requires a * d < b * d
    ensures a < b
  {
  }

  lemma MulAtMostCancel(a: nat, b: nat, d: nat)
    requires d > 0 && a * d <= b * d
    ensures a <= b
  {
  }

  /** `n == s + c * d` when `n` is congruent to `s` and lies in the window `(s + (c-1)*d, s + c*d]`. */
  lemma WindowPosition(n: nat, d: nat, s: nat, c: nat)
    requires d > 0 && s < d && n % d == s
    requires n <= s + c * d
    requires c == 0 || s + (c - 1) * d < n
    ensures n == s + c * d
  {
    var q := n / d;
    assert n == q * d + s;
    MulAtMostCancel(q, c, d);
    if c > 0 {
      MulLessCancel(c - 1, q, d);
    }
  }

  /**
   * Stream `s` receives rows `s, s + numStreams, s + 2*numStreams, ...`:
   * entry `t` of its row list is row `s + t*numStreams`, and the list stops
   * at the first such row that is not below `n`.
   */
  lemma {:induction false} LaneRowIdsShape(n: nat, numStreams: nat, s: nat)
    requires numStreams > 0 && s < numStreams
    ensures forall t :: 0 <= t < |LaneRowIds(n, numStreams, s)| ==>
              LaneRowIds(n, numStreams, s)[t] == s + t * numStreams
    ensures n <= s + |LaneRowIds(n, numStreams, s)| * numStreams
    ensures |LaneRowIds(n, numStreams, s)| == 0
            || s + (|LaneRowIds(n, numStreams, s)| - 1) * numStreams < n
  {
    if n > 0 {
      LaneRowIdsShape(n - 1, numStreams, s);
      var prev := LaneRowIds(n - 1, numStreams, s);
      var c := |prev|;
      assert (c + 1) * numStreams == c * numStreams + numStreams;
      if (n - 1) % numStreams == s {
        WindowPosition(n - 1, numStreams, s, c);
        assert LaneRowIds(n, numStreams, s) == prev + [n - 1];
      } else {
        DivModUnique(s + c * numStreams, numStreams, c, s);
        assert n - 1 != s + c * numStreams;
        assert LaneRowIds(n, numStreams, s) == prev;
      }
    }
  }

  /** Row `r` goes to stream `r % numStreams`, at position `r / numStreams` of that stream's rows. */
  lemma RowLane(n: nat, numStreams: nat, r: nat)
    requires numStreams > 0 && r < n
    ensures r % numStreams < numStreams
    ensures r / numStreams < |LaneRowIds(n, numStreams, r % numStreams)|
    ensures LaneRowIds(n, numStreams, r % numStreams)[r / numStreams] == r
  {
    var s := r % numStreams;
    var t := r / numStreams;
    assert r == s + t * numStreams;
    LanePosition(n, numStreams, s, t);
  }

  /** Row `s + t*numStreams`, when below `n`, is entry `t` of stream `s`'s rows. */
  lemma LanePosition(n: nat, numStreams: nat, s: nat, t: nat)
    requires numStreams > 0 && s < numStreams && s + t * numStreams < n
    ensures t < |LaneRowIds(n, numStreams, s)|
    ensures LaneRowIds(n, numStreams, s)[t] == s + t * numStreams
  {
    LaneRowIdsShape(n, numStreams, s);
    var c := |LaneRowIds(n, numStreams, s)|;
    MulLessCancel(t, c, numStreams);
  }

  lemma {:induction false} LaneRowIdsBelow(n: nat, numStreams: nat, s: nat)
    requires numStreams > 0
    ensures RowIdsBelow(LaneRowIds(n, numStreams, s), n)
  {
    if n > 0 {
      LaneRowIdsBelow(n - 1, numStreams, s);
    }
  }

  /** The stream built by the loop is its rows, each closed by a marker. */
  lemma {:induction false} StreamIsJoin(m: CsrMatrix, numStreams: nat, s: nat, n: nat)
    requires Valid(m) && numStreams > 0 && n <= m.numRows
    ensures RowIdsBelow(LaneRowIds(n, numStreams, s), m.numRows)
    ensures StreamUpTo(m, numStreams, s, n) == JoinRows(m, LaneRowIds(n, numStreams, s))
  {
    LaneRowIdsBelow(n, numStreams, s);
    if n > 0 {
      StreamIsJoin(m, numStreams, s, n - 1);
      var prev := LaneRowIds(n - 1, numStreams, s);
      var before := StreamUpTo(m, numStreams, s, n - 1);
      assert before == JoinRows(m, prev);
      if (n - 1) % numStreams == s {
        var ids := prev + [n - 1];
        assert LaneRowIds(n, numStreams, s) == ids;
        assert ids[..|ids| - 1] == prev;
        var row := RowPackets(m, n - 1);
        assert JoinRows(m, ids) == JoinRows(m, prev) + row + [Marker];
        assert StreamUpTo(m, numStreams, s, n) == before + (row + [Marker]);
        assert before + (row + [Marker]) == before + row + [Marker];
      } else {
        assert LaneRowIds(n, numStreams, s) == prev + [] == prev;
        assert StreamUpTo(m, numStreams, s, n) == before + [] == before;
      }
    }
  }

  /** Number of marker packets in a stream. */
  function CountMarkers(ps: seq<Packet>): nat
    decreases |ps|
  {
    if |ps| == 0 then 0
    else CountMarkers(ps[..|ps| - 1]) + (if ps[|ps| - 1].index == NextRowMarker then 1 else 0)
  }

  lemma {:induction false} CountMarkersAppend(a: seq<Packet>, b: seq<Packet>)
    ensures CountMarkers(a + b) == CountMarkers(a) + CountMarkers(b)
    decreases |b|
  {
    if |b| > 0 {
      CountMarkersAppend(a, b[..|b| - 1]);
      assert (a + b)[..|a + b| - 1] == a + b[..|b| - 1];
    } else {
      assert a + b == a;
    }
  }

  lemma {:induction false} NoMarkers(ps: seq<Packet>)
    requires forall x :: 0 <= x < |ps| ==> ps[x].index != NextRowMarker
    ensures CountMarkers(ps) == 0
    decreases |ps|
  {
    if |ps| > 0 {
      NoMarkers(ps[..|ps| - 1]);
    }
  }

  /** A row holds no marker when its column indices are all below the marker value. */
  lemma RowHasNoMarker(m: CsrMatrix, r: nat)
    requires Valid(m) && r < m.numRows && IndicesBelow(m, NextRowMarker)
    ensures CountMarkers(RowPackets(m, r)) == 0
  {
    RowColsBelow(m, r, NextRowMarker);
    NoMarkers(RowPackets(m, r));
  }

  /**
   * A stream holds exactly one marker per row assigned to it, empty rows
   * included, as long as no column index collides with the marker value.
   */
  lemma {:induction false} MarkersCountRows(m: CsrMatrix, numStreams: nat, s: nat, n: nat)
    requires Valid(m) && numStreams > 0 && n <= m.numRows && IndicesBelow(m, NextRowMarker)
    ensures CountMarkers(StreamUpTo(m, numStreams, s, n)) == |LaneRowIds(n, numStreams, s)|
  {
    if n > 0 {
      MarkersCountRows(m, numStreams, s, n - 1);
      MarkersStep(m, numStreams, s, n);
    }
  }

  /** Row `n - 1` adds one marker to its own stream and none to the others. */
  lemma MarkersStep(m: CsrMatrix, numStreams: nat, s: nat, n: nat)
    requires Valid(m) && numStreams > 0 && 0 < n <= m.numRows && IndicesBelow(m, NextRowMarker)
    ensures CountMarkers(StreamUpTo(m, numStreams, s, n)) - CountMarkers(StreamUpTo(m, numStreams, s, n - 1))
            == |LaneRowIds(n, numStreams, s)| - |LaneRowIds(n - 1, numStreams, s)|
  {
    var prev := StreamUpTo(m, numStreams, s, n - 1);
    if (n - 1) % numStreams == s {
      var row := RowPackets(m, n - 1);
      assert StreamUpTo(m, numStreams, s, n) == prev + (row + [Marker]);
      RowHasNoMarker(m, n - 1);
      OneMoreMarker(prev, row);
    } else {
      assert StreamUpTo(m, numStreams, s, n) == prev + [] == prev;
    }
  }

  /** A row of packets without markers, closed by a marker, adds one marker. */
  lemma OneMoreMarker(prev: seq<Packet>, row: seq<Packet>)
    requires CountMarkers(row) == 0
    ensures CountMarkers(prev + (row + [Marker])) == CountMarkers(prev) + 1
  {
    CountMarkersAppend(prev, row + [Marker]);
    CountMarkersAppend(row, [Marker]);
    assert CountMarkers([Marker]) == 1 by { assert [Marker][..0] == []; }
  }

  /** A tile of `n` rows, `n` a multiple of the stream count, gives each stream `n / numStreams` rows. */
  lemma EvenLanes(n: nat, numStreams: nat, s: nat)
    requires numStreams > 0 && s < numStreams && n % numStreams == 0
    ensures |LaneRowIds(n, numStreams, s)| == n / numStreams
  {
    LaneRowIdsShape(n, numStreams, s);
    DivExact(n, numStreams);
    CountFromBounds(n, numStreams, s, |LaneRowIds(n, numStreams, s)|, n / numStreams);
  }

  lemma DivExact(n: nat, d: nat)
    requires d > 0 && n % d == 0
    ensures n == (n / d) * d
  {
  }

  lemma MulSucc(c: nat, d: nat)
    ensures (c + 1) * d == c * d + d
  {
  }

  /** A window `[s + (c-1)d, s + cd)` with `s < d` holds exactly one multiple of `d`: `qd` with `q == c`. */
  lemma CountFromBounds(n: nat, d: nat, s: nat, c: nat, q: nat)
    requires d > 0 && s < d && n == q * d
    requires n <= s + c * d
    requires c == 0 || s + (c - 1) * d < n
    ensures c == q
  {
    MulSucc(c, d);
    MulLessCancel(q, c + 1, d);
    if c > 0 {
      MulLessCancel(c - 1, q, d);
    }
  }
}
