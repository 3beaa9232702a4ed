/**
 * What the network search decides: victory holds exactly when the colour has
 * a network, a chain of distinct pieces from the start goal to the end goal
 * in which each piece is a connection of the one before (taken with its own
 * predecessor as prev, so no line is used twice in a row), with no start
 * piece after the first, no end piece before the last, and from 6 to 11
 * pieces (the search gives up once it has seen 10 pieces).
 */
module Networks {
  import opened Common
  import opened Pieces
  import opened PieceSets

  /** The piece before position j of the chain, as getConnections' prev. */
  function PrevOf(w: seq<nat>, j: int): Option<nat>
    requires 0 <= j < |w|
  {
    if j == 0 then None else Some(w[j - 1])
  }

  predicate Distinct(w: seq<nat>) {
    forall j, k :: 0 <= j < k < |w| ==> w[j] != w[k]
  }

  /** Piece j + 1 of the chain is a connection of piece j, with piece j - 1 as prev. */
  ghost predicate Linked(cells: seq<int>, color: int, pieces: seq<Pos>, w: seq<nat>, j: int)
    requires IsGrid(cells) && 0 <= j < |w| - 1 && AllBelow(w, |pieces|)
  {
    Some(w[j + 1]) in Connections(cells, color, pieces, w[j], PrevOf(w, j))
  }

  ghost predicate AllLinked(cells: seq<int>, color: int, pieces: seq<Pos>, w: seq<nat>)
    requires IsGrid(cells) && AllBelow(w, |pieces|)
  {
    forall j {:trigger Linked(cells, color, pieces, w, j)} :: 0 <= j < |w| - 1 ==> Linked(cells, color, pieces, w, j)
  }

  /** Only the first piece of the chain lies on the start goal, and none but the last on the end goal. */
  predicate GoalsAtEnds(color: int, pieces: seq<Pos>, w: seq<nat>)
    requires |w| >= 1 && AllBelow(w, |pieces|)
  {
    && IsStartPiece(color, pieces[w[0]])
    && (forall j :: 0 < j < |w| ==> !IsStartPiece(color, pieces[w[j]]))
    && (forall j :: 0 <= j < |w| - 1 ==> !IsEndPiece(color, pieces[w[j]]))
  }

  /** A chain of pieces that the search may follow from a start piece. */
  ghost predicate Walk(cells: seq<int>, color: int, pieces: seq<Pos>, w: seq<nat>)
    requires IsGrid(cells)
  {
    && |w| >= 1
    && AllBelow(w, |pieces|)
    && Distinct(w)
    && GoalsAtEnds(color, pieces, w)
    && AllLinked(cells, color, pieces, w)
  }

  /** A winning network: a walk that ends on the end goal and has 6 to 11 pieces. */
  ghost predicate IsNetwork(cells: seq<int>, color: int, pieces: seq<Pos>, w: seq<nat>)
    requires IsGrid(cells)
  {
    && Walk(cells, color, pieces, w)
    && IsEndPiece(color, pieces[w[|w| - 1]])
    && 6 <= |w| <= MAX_PIECES + 1
  }

  /**
   * seen lists the first |seen| pieces of the chain w, most recent first:
   * the order in which hasNetwork keeps its seen list.
   */
  predicate ReversedPrefix(seen: seq<nat>, w: seq<nat>) {
    |seen| <= |w| && forall k :: 0 <= k < |seen| ==> seen[k] == w[|seen| - 1 - k]
  }

  /** Pushing the next piece of the chain onto seen keeps it the reversed prefix. */
  lemma ReversedPrefixPush(seen: seq<nat>, w: seq<nat>)
    requires ReversedPrefix(seen, w) && |seen| < |w|
    ensures ReversedPrefix([w[|seen|]] + seen, w)
  {
    var s := [w[|seen|]] + seen;
    forall k | 0 <= k < |s| ensures s[k] == w[|s| - 1 - k] {
      if k > 0 {
        assert s[k] == seen[k - 1];
      }
    }
  }

  /** The search's next seen list reverses v + [curr], and its prev is the last piece of v. */
  lemma PushLast(seen: seq<nat>, v: seq<nat>, curr: nat)
    requires ReversedPrefix(seen, v) && |seen| == |v|
    ensures ReversedPrefix([curr] + seen, v + [curr])
    ensures PrevOf(v + [curr], |v|) == if seen == [] then None else Some(seen[0])
  {
    var u := v + [curr];
    forall k | 0 <= k < |seen| ensures seen[k] == u[|seen| - 1 - k] {
      assert u[|seen| - 1 - k] == v[|seen| - 1 - k];
    }
    assert ReversedPrefix(seen, u);
    ReversedPrefixPush(seen, u);
    if |v| > 0 {
      assert u[|v| - 1] == seen[0];
    }
  }

  /** A seen list that reverses all of u holds the same pieces as u. */
  lemma ReversedPrefixSame(seen: seq<nat>, u: seq<nat>, c: nat)
    requires ReversedPrefix(seen, u) && |seen| == |u|
    ensures c in seen <==> c in u
  {
    if c in u {
      var j :| 0 <= j < |u| && u[j] == c;
      assert seen[|u| - 1 - j] == c;
    }
  }

  lemma DistinctSnoc(v: seq<nat>, c: nat)
    requires Distinct(v) && c !in v
    ensures Distinct(v + [c])
  {
    var w := v + [c];
    forall j, k | 0 <= j < k < |w| ensures w[j] != w[k] {
      assert w[j] == v[j];
      if k < |v| {
        assert w[k] == v[k];
      }
    }
  }

  lemma AllBelowSnoc(v: seq<nat>, c: nat, n: int)
    requires AllBelow(v, n) && c < n
    ensures AllBelow(v + [c], n)
  {
    var w := v + [c];
    forall j | 0 <= j < |w| ensures w[j] < n {
      if j < |v| { assert w[j] == v[j]; }
    }
  }

  /** Appending to a chain keeps the links it had. */
  lemma LinkedSnocAt(cells: seq<int>, color: int, pieces: seq<Pos>, v: seq<nat>, c: nat, j: int)
    requires IsGrid(cells) && AllBelow(v, |pieces|) && AllBelow(v + [c], |pieces|) && 0 <= j < |v| - 1
    requires Linked(cells, color, pieces, v, j)
    ensures Linked(cells, color, pieces, v + [c], j)
  {
    var w := v + [c];
    assert w[j] == v[j] && w[j + 1] == v[j + 1];
    assert PrevOf(w, j) == PrevOf(v, j);
  }

  /** The new last link of a chain. */
  lemma LinkedSnocLast(cells: seq<int>, color: int, pieces: seq<Pos>, v: seq<nat>, c: nat)
    requires IsGrid(cells) && |v| >= 1 && AllBelow(v, |pieces|) && AllBelow(v + [c], |pieces|)
    requires Some(c) in Connections(cells, color, pieces, v[|v| - 1], PrevOf(v, |v| - 1))
    ensures Linked(cells, color, pieces, v + [c], |v| - 1)
  {
    var w := v + [c];
    assert w[|v| - 1] == v[|v| - 1] && w[|v|] == c;
    assert PrevOf(w, |v| - 1) == PrevOf(v, |v| - 1);
  }

  lemma LinkedSnoc(cells: seq<int>, color: int, pieces: seq<Pos>, v: seq<nat>, c: nat)
    requires IsGrid(cells) && |v| >= 1 && AllBelow(v, |pieces|) && c < |pieces|
    requires AllLinked(cells, color, pieces, v)
    requires Some(c) in Connections(cells, color, pieces, v[|v| - 1], PrevOf(v, |v| - 1))
    ensures AllBelow(v + [c], |pieces|)
    ensures AllLinked(cells, color, pieces, v + [c])
  {
    var w := v + [c];
    AllBelowSnoc(v, c, |pieces|);
    LinkedSnocLast(cells, color, pieces, v, c);
    forall j | 0 <= j < |v| - 1 ensures Linked(cells, color, pieces, w, j) {
      LinkedSnocAt(cells, color, pieces, v, c, j);
    }
  }

  lemma GoalsSnoc(color: int, pieces: seq<Pos>, v: seq<nat>, c: nat)
    requires |v| >= 1 && AllBelow(v, |pieces|) && c < |pieces| && AllBelow(v + [c], |pieces|)
    requires GoalsAtEnds(color, pieces, v)
    requires !IsEndPiece(color, pieces[v[|v| - 1]]) && !IsStartPiece(color, pieces[c])
    ensures GoalsAtEnds(color, pieces, v + [c])
  {
    var w := v + [c];
    assert w[0] == v[0];
    forall j | 0 < j < |w| ensures !IsStartPiece(color, pieces[w[j]]) {
      if j < |v| { assert w[j] == v[j]; }
    }
    forall j | 0 <= j < |w| - 1 ensures !IsEndPiece(color, pieces[w[j]]) {
      assert w[j] == v[j];
    }
  }

  /** A new piece, not a start piece, connected to the last piece of a walk that is not an end piece, extends the walk. */
  lemma ExtendWalk(cells: seq<int>, color: int, pieces: seq<Pos>, u: seq<nat>, c: nat)
    requires IsGrid(cells) && c < |pieces|
    requires Walk(cells, color, pieces, u)
    requires c !in u && !IsStartPiece(color, pieces[c]) && !IsEndPiece(color, pieces[u[|u| - 1]])
    requires Some(c) in Connections(cells, color, pieces, u[|u| - 1], PrevOf(u, |u| - 1))
    ensures Walk(cells, color, pieces, u + [c])
  {
    DistinctSnoc(u, c);
    LinkedSnoc(cells, color, pieces, u, c);
    GoalsSnoc(color, pieces, u, c);
  }

  /** A single start piece is a walk. */
  lemma StartWalk(cells: seq<int>, color: int, pieces: seq<Pos>, i: nat)
    requires IsGrid(cells) && i < |pieces| && IsStartPiece(color, pieces[i])
    ensures Walk(cells, color, pieces, [i])
  {
  }

  /** What a network w says about its piece j: the facts hasNetwork tests before recursing. */
  lemma NetworkAt(cells: seq<int>, color: int, pieces: seq<Pos>, w: seq<nat>, seen: seq<nat>)
    requires IsGrid(cells)
    requires IsNetwork(cells, color, pieces, w) && ReversedPrefix(seen, w) && |seen| < |w|
    ensures AllBelow(seen, |pieces|) && |seen| <= MAX_PIECES && w[|seen|] < |pieces|
    ensures w[|seen|] !in seen
    ensures |seen| >= 1 ==> !IsStartPiece(color, pieces[w[|seen|]])
    ensures IsEndPiece(color, pieces[w[|seen|]]) ==> |seen| + 1 == |w|
    ensures !IsEndPiece(color, pieces[w[|seen|]]) ==> |seen| + 1 < |w| && |seen| < MAX_PIECES
  {
    var j := |seen|;
    forall k | 0 <= k < j ensures seen[k] < |pieces| && seen[k] != w[j] {
      assert seen[k] == w[j - 1 - k];
    }
    if j < |w| - 1 {
      assert !IsEndPiece(color, pieces[w[j]]);
    }
  }

  /** The piece after w[j] in a network is a connection of w[j], with seen[0] (w[j - 1]) as prev. */
  lemma NetworkLink(cells: seq<int>, color: int, pieces: seq<Pos>, w: seq<nat>, seen: seq<nat>)
    requires IsGrid(cells)
    requires IsNetwork(cells, color, pieces, w) && ReversedPrefix(seen, w) && |seen| + 1 < |w|
    ensures Some(w[|seen| + 1]) in Connections(cells, color, pieces, w[|seen|], if seen == [] then None else Some(seen[0]))
  {
    var j := |seen|;
    assert PrevOf(w, j) == if seen == [] then None else Some(seen[0]);
    assert Linked(cells, color, pieces, w, j);
  }

  /** Completeness: the search from piece |seen| of a network, with the pieces before it as seen, succeeds. */
  lemma {:induction false} SearchFindsNetwork(cells: seq<int>, color: int, pieces: seq<Pos>, w: seq<nat>, seen: seq<nat>)
    requires IsGrid(cells) && Covered(cells, color, pieces)
    requires IsNetwork(cells, color, pieces, w) && ReversedPrefix(seen, w) && |seen| < |w|
    ensures SearchArgs(cells, color, pieces, seen) && w[|seen|] < |pieces|
    ensures NetworkFrom(cells, color, pieces, w[|seen|], seen)
    decreases |w| - |seen|
  {
    NetworkAt(cells, color, pieces, w, seen);
    var curr := w[|seen|];
    if !IsEndPiece(color, pieces[curr]) {
      NetworkLink(cells, color, pieces, w, seen);
      var conns := Connections(cells, color, pieces, curr, if seen == [] then None else Some(seen[0]));
      var k :| 0 <= k < |conns| && conns[k] == Some(w[|seen| + 1]);
      ReversedPrefixPush(seen, w);
      SearchFindsNetwork(cells, color, pieces, w, [curr] + seen);
      assert conns[k].value == w[|seen| + 1];
      SearchSucceeds(cells, color, pieces, curr, seen, k);
    } else {
      SearchEnds(cells, color, pieces, curr, seen);
    }
  }

  /** hasNetwork succeeds at an end piece not seen before, once enough pieces have been seen. */
  lemma SearchEnds(cells: seq<int>, color: int, pieces: seq<Pos>, curr: nat, seen: seq<nat>)
    requires SearchArgs(cells, color, pieces, seen) && curr < |pieces|
    requires curr !in seen && (|seen| >= 1 ==> !IsStartPiece(color, pieces[curr]))
    requires IsEndPiece(color, pieces[curr]) && |seen| + 1 >= 6
    ensures NetworkFrom(cells, color, pieces, curr, seen)
  {
  }

  /** hasNetwork succeeds at a piece not on the end goal when the search from its connection k does. */
  lemma SearchSucceeds(cells: seq<int>, color: int, pieces: seq<Pos>, curr: nat, seen: seq<nat>, k: nat)
    requires SearchArgs(cells, color, pieces, seen) && curr < |pieces|
    requires curr !in seen && (|seen| >= 1 ==> !IsStartPiece(color, pieces[curr]))
    requires !IsEndPiece(color, pieces[curr]) && |seen| < MAX_PIECES
    requires k < |Connections(cells, color, pieces, curr, if seen == [] then None else Some(seen[0]))|
    requires NetworkFrom(cells, color, pieces, Connections(cells, color, pieces, curr, if seen == [] then None else Some(seen[0]))[k].value, [curr] + seen)
    ensures NetworkFrom(cells, color, pieces, curr, seen)
  {
    var conns := Connections(cells, color, pieces, curr, if seen == [] then None else Some(seen[0]));
    NetworkViaExists(cells, color, pieces, conns, [curr] + seen);
  }

  /** The tests hasNetwork makes of curr before searching its connections. */
  lemma SearchStep(cells: seq<int>, color: int, pieces: seq<Pos>, curr: nat, seen: seq<nat>)
    requires SearchArgs(cells, color, pieces, seen) && curr < |pieces|
    requires NetworkFrom(cells, color, pieces, curr, seen)
    ensures curr !in seen
    ensures |seen| >= 1 ==> !IsStartPiece(color, pieces[curr])
    ensures IsEndPiece(color, pieces[curr]) ==> |seen| + 1 >= 6
    ensures !IsEndPiece(color, pieces[curr]) ==> |seen| < MAX_PIECES
  {
  }

  /** The search's step along connection k of curr, to next, extends the walk v + [curr]. */
  lemma FollowConnection(cells: seq<int>, color: int, pieces: seq<Pos>, v: seq<nat>, curr: nat, seen: seq<nat>, k: nat, next: nat)
    requires SearchArgs(cells, color, pieces, seen) && curr < |pieces| && next < |pieces|
    requires ReversedPrefix(seen, v) && |seen| == |v|
    requires Walk(cells, color, pieces, v + [curr]) && !IsEndPiece(color, pieces[curr])
    requires k < |Connections(cells, color, pieces, curr, if seen == [] then None else Some(seen[0]))|
    requires Connections(cells, color, pieces, curr, if seen == [] then None else Some(seen[0]))[k] == Some(next)
    requires next !in [curr] + seen && !IsStartPiece(color, pieces[next])
    ensures ReversedPrefix([curr] + seen, v + [curr])
    ensures Walk(cells, color, pieces, v + [curr] + [next])
  {
    var u := v + [curr];
    assert u[|u| - 1] == curr && |u| - 1 == |v|;
    PushLast(seen, v, curr);
    assert Some(next) in Connections(cells, color, pieces, u[|u| - 1], PrevOf(u, |u| - 1));
    ReversedPrefixSame([curr] + seen, u, next);
    ExtendWalk(cells, color, pieces, u, next);
  }

  /** Soundness: when the search at curr succeeds after the walk v, the colour has a network (one that continues v + [curr]). */
  lemma {:induction false} NetworkFromSearch(cells: seq<int>, color: int, pieces: seq<Pos>, v: seq<nat>, curr: nat, seen: seq<nat>)
    returns (w: seq<nat>)
    requires SearchArgs(cells, color, pieces, seen) && curr < |pieces|
    requires ReversedPrefix(seen, v) && |seen| == |v|
    requires Walk(cells, color, pieces, v + [curr])
    requires NetworkFrom(cells, color, pieces, curr, seen)
    ensures IsNetwork(cells, color, pieces, w)
    decreases MAX_PIECES - |seen|
  {
    var u := v + [curr];
    if IsEndPiece(color, pieces[curr]) {
      assert u[|u| - 1] == curr;
      w := u;
    } else {
      var conns := Connections(cells, color, pieces, curr, if seen == [] then None else Some(seen[0]));
      var seen' := [curr] + seen;
      NetworkViaExists(cells, color, pieces, conns, seen');
      var k :| 0 <= k < |conns| && NetworkFrom(cells, color, pieces, conns[k].value, seen');
      var next := conns[k].value;
      assert conns[k] == Some(next);
      SearchStep(cells, color, pieces, next, seen');
      FollowConnection(cells, color, pieces, v, curr, seen, k, next);
      w := NetworkFromSearch(cells, color, pieces, u, next, seen');
    }
  }

  /** A search that succeeds from a start piece with nothing seen has found a network. */
  lemma NetworkFromStart(cells: seq<int>, color: int, pieces: seq<Pos>, i: nat) returns (w: seq<nat>)
    requires IsGrid(cells) && Covered(cells, color, pieces)
    requires i < |pieces| && IsStartPiece(color, pieces[i]) && NetworkFrom(cells, color, pieces, i, [])
    ensures IsNetwork(cells, color, pieces, w)
  {
    StartWalk(cells, color, pieces, i);
    var none: seq<nat> := [];
    assert none + [i] == [i];
    w := NetworkFromSearch(cells, color, pieces, none, i, none);
  }

  /** When victory() holds, the colour has a network. */
  lemma WinsHasNetwork(cells: seq<int>, color: int, pieces: seq<Pos>) returns (w: seq<nat>)
    requires IsGrid(cells) && Covered(cells, color, pieces)
    requires Wins(cells, color, pieces)
    ensures IsNetwork(cells, color, pieces, w)
  {
    WinsFromSomeStart(cells, color, pieces);
    var i: nat :| i < |pieces| && IsStartPiece(color, pieces[i]) && NetworkFrom(cells, color, pieces, i, []);
    w := NetworkFromStart(cells, color, pieces, i);
  }

  /** A network makes victory() hold. */
  lemma NetworkWins(cells: seq<int>, color: int, pieces: seq<Pos>, w: seq<nat>)
    requires IsGrid(cells) && Covered(cells, color, pieces)
    requires IsNetwork(cells, color, pieces, w)
    ensures Wins(cells, color, pieces)
  {
    SearchFindsNetwork(cells, color, pieces, w, []);
    WinsFromSomeStart(cells, color, pieces);
  }

  /** victory() is true exactly when the colour has a network. */
  lemma VictoryIffNetwork(cells: seq<int>, color: int, pieces: seq<Pos>)
    requires IsGrid(cells) && Covered(cells, color, pieces)
    ensures Wins(cells, color, pieces) <==> exists w :: IsNetwork(cells, color, pieces, w)
  {
    if Wins(cells, color, pieces) {
      var w := WinsHasNetwork(cells, color, pieces);
    }
    if exists w :: IsNetwork(cells, color, pieces, w) {
      var w :| IsNetwork(cells, color, pieces, w);
      NetworkWins(cells, color, pieces, w);
    }
  }
}
