/** Picking rows at given positions out of a stream of batches. */
module StreamSampler {
  import opened Wrappers
  import opened Streams
  import opened Floyd

  /** The stream indexed at the positions that exist in it. */
  function RowsAt<T>(stream: seq<T>, positions: seq<int>): seq<T> {
    if positions == [] || !(0 <= positions[0] < |stream|) then []
    else [stream[positions[0]]] + RowsAt(stream, positions[1..])
  }

  /** Positions that all exist give one row each. */
  lemma {:induction false} RowsAtInRange<T>(stream: seq<T>, positions: seq<int>)
    requires AllBelow(positions, |stream|)
    ensures |RowsAt(stream, positions)| == |positions|
    ensures forall i :: 0 <= i < |positions| ==> RowsAt(stream, positions)[i] == stream[positions[i]]
  {
    if positions == [] {
    } else {
      forall i | 0 <= i < |positions[1..]| ensures 0 <= positions[1..][i] < |stream| {
        assert positions[1..][i] == positions[i + 1];
      }
      RowsAtInRange(stream, positions[1..]);
    }
  }

  lemma {:induction false} RowsAtPrefix<T>(a: seq<T>, b: seq<T>, positions: seq<int>, k: nat)
    requires a <= b && k <= |positions|
    requires AllBelow(positions[..k], |a|)
    requires k < |positions| ==> positions[k] >= |b|
    ensures RowsAt(b, positions) == RowsAt(a, positions[..k])
  {
    if k == 0 {
    } else {
      assert positions[..k][1..] == positions[1..][..k - 1];
      assert positions[..k][0] == positions[0];
      forall i | 0 <= i < k - 1 ensures 0 <= positions[1..][i] < |a| {
        assert positions[1..][i] == positions[..k][i + 1];
      }
      RowsAtPrefix(a, b, positions[1..], k - 1);
    }
  }

  lemma {:induction false} RowsAtNext<T>(stream: seq<T>, positions: seq<int>, k: nat)
    requires k < |positions| && AllBelow(positions[..k + 1], |stream|)
    ensures RowsAt(stream, positions[..k + 1]) == RowsAt(stream, positions[..k]) + [stream[positions[k]]]
  {
    assert positions[..k + 1][k] == positions[k];
    if k > 0 {
      var rest := positions[1..];
      assert positions[..k + 1][1..] == rest[..k] && positions[..k][1..] == rest[..k - 1];
      forall i | 0 <= i < k ensures 0 <= rest[..k][i] < |stream| {
        assert rest[..k][i] == positions[..k + 1][i + 1];
      }
      RowsAtNext(stream, rest, k - 1);
    } else {
      assert positions[..1][1..] == [];
    }
  }

  class StreamSampler<T> {
    const positions: seq<int>
    var next: nat
    var rowsSeen: nat
    /** Everything that has streamed past. */
    ghost var stream: seq<T>
    /** Everything picked so far. */
    ghost var picked: seq<T>

    /** The cursor stands behind exactly the positions that have streamed past, and these are picked. */
    ghost predicate Valid()
      reads this
    {
      && StrictlyIncreasing(positions)
      && (forall i :: 0 <= i < |positions| ==> 0 <= positions[i])
      && rowsSeen == |stream|
      && next <= |positions|
      && AllBelow(positions[..next], rowsSeen)
      && (next < |positions| ==> positions[next] >= rowsSeen)
      && picked == RowsAt(stream, positions[..next])
    }

    constructor (positions: seq<int>)
      requires StrictlyIncreasing(positions) && forall i :: 0 <= i < |positions| ==> 0 <= positions[i]
      ensures Valid() && stream == [] && picked == [] && this.positions == positions
    {
      this.positions := positions;
      next, rowsSeen := 0, 0;
      stream, picked := [], [];
    }

    /** The rows of the batch whose stream positions are wanted. */
    method TakeRows(batch: seq<T>) returns (rows: seq<T>)
      requires Valid()
      modifies this
      ensures Valid() && stream == old(stream) + batch && picked == old(picked) + rows
    {
      var end := rowsSeen + |batch|;
      ghost var now := stream + batch;
      rows := [];
      RowsAtPrefix(stream, now, positions[..next], next);
      assert positions[..next][..next] == positions[..next];
      while next < |positions| && positions[next] < end
        invariant next <= |positions| && rowsSeen == |stream| == end - |batch| && now == stream + batch
        invariant AllBelow(positions[..next], end)
        invariant next < |positions| ==> positions[next] >= rowsSeen
        invariant RowsAt(now, positions[..next]) == picked + rows
        invariant stream == old(stream) && picked == old(picked)
        decreases |positions| - next
      {
        RowsAtNext(now, positions, next);
        assert now[positions[next]] == batch[positions[next] - rowsSeen];
        rows := rows + [batch[positions[next] - rowsSeen]];
        next := next + 1;
      }
      rowsSeen := end;
      stream := now;
      picked := picked + rows;
    }

    predicate IsDone()
      reads this
    {
      next >= |positions|
    }

    /** Once done, nothing that could still stream past would be picked: the picks are those of
        any longer stream. */
    lemma DoneIsFinal(longer: seq<T>)
      requires Valid() && stream <= longer
      requires IsDone() || stream == longer
      ensures picked == RowsAt(longer, positions)
    {
      RowsAtPrefix(stream, longer, positions, next);
    }
  }

  method CollectParts<T>(batches: seq<seq<T>>, positions: seq<int>) returns (parts: seq<seq<T>>)
    requires StrictlyIncreasing(positions) && forall i :: 0 <= i < |positions| ==> 0 <= positions[i]
    ensures Flatten(parts) == RowsAt(Flatten(batches), positions)
  {
    hide RowsAt, AllBelow, StrictlyIncreasing;
    var sampler := new StreamSampler<T>(positions);
    parts := [];
    var i := 0;
    while i < |batches|
      invariant 0 <= i <= |batches| && fresh(sampler) && sampler.Valid() && sampler.positions == positions
      invariant sampler.stream == Flatten(batches[..i]) && sampler.picked == Flatten(parts)
    {
      var picked := sampler.TakeRows(batches[i]);
      FlattenNext(batches, i);
      i := i + 1;
      if |picked| > 0 {
        FlattenPush(parts, picked);
        parts := parts + [picked];
      }
      if sampler.IsDone() {
        break;
      }
    }
    FlattenPrefix(batches, i);
    if i == |batches| {
      assert batches[..i] == batches;
    }
    sampler.DoneIsFinal(Flatten(batches));
  }

  /** Collects the sampled rows, stopping the scan at the first batch after which nothing is left
      to pick. */
  method CollectSampledRows<T>(batches: seq<seq<T>>, positions: seq<int>) returns (rows: seq<T>)
    requires StrictlyIncreasing(positions) && forall i :: 0 <= i < |positions| ==> 0 <= positions[i]
    ensures rows == RowsAt(Flatten(batches), positions)
  {
    var parts := CollectParts(batches, positions);
    rows := [];
    for p := 0 to |parts|
      invariant rows == Flatten(parts[..p])
    {
      FlattenNext(parts, p);
      rows := rows + parts[p];
    }
    assert parts[..|parts|] == parts;
  }
}
