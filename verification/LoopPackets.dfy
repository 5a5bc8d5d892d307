/** Assembling the values of a loop body into packets. */
module LoopPackets {
  import opened Bignum
  import opened Values
  import opened Wrappers

  const OK := 0

  // Consecutive groups of k values

  function FullPackets(values: seq<Value>, k: nat): (ps: seq<seq<Value>>)
    requires k > 0
    ensures forall i :: 0 <= i < |ps| ==> |ps[i]| == k
  {
    if |values| < k then [] else [values[..k]] + FullPackets(values[k..], k)
  }

  function Leftover(values: seq<Value>, k: nat): (r: seq<Value>)
    requires k > 0
    ensures |r| < k
  {
    if |values| < k then values else Leftover(values[k..], k)
  }

  function Unknowns(n: nat): (u: seq<Value>)
    ensures |u| == n && forall i :: 0 <= i < n ==> u[i] == Unknown
  {
    seq(n, i => Unknown)
  }

  /** The values in groups, the last one filled up with unknown values. */
  function Packets(values: seq<Value>, k: nat): (ps: seq<seq<Value>>)
    requires k > 0
    ensures forall i :: 0 <= i < |ps| ==> |ps[i]| == k
  {
    var rest := Leftover(values, k);
    FullPackets(values, k) + if rest == [] then [] else [rest + Unknowns(k - |rest|)]
  }

  function Concat(ps: seq<seq<Value>>): seq<Value> {
    if ps == [] then [] else ps[0] + Concat(ps[1..])
  }

  lemma {:induction false} ConcatAppend(ps: seq<seq<Value>>, qs: seq<seq<Value>>)
    ensures Concat(ps + qs) == Concat(ps) + Concat(qs)
  {
    if ps == [] {
      assert ps + qs == qs;
    } else {
      ConcatAppend(ps[1..], qs);
      assert (ps + qs)[1..] == ps[1..] + qs;
      Associative(ps[0], Concat(ps[1..]), Concat(qs));
    }
  }

  lemma {:induction false} FullConserve(values: seq<Value>, k: nat)
    requires k > 0
    ensures Concat(FullPackets(values, k)) + Leftover(values, k) == values
  {
    if |values| >= k {
      FullConserve(values[k..], k);
      assert FullPackets(values, k)[1..] == FullPackets(values[k..], k);
      assert values == values[..k] + (Concat(FullPackets(values[k..], k)) + Leftover(values[k..], k));
    }
  }

  /** No value is dropped, repeated or moved: the packets in order are the values in order, and only unknown values are added. */
  lemma {:induction false} Conservation(values: seq<Value>, k: nat)
    requires k > 0
    ensures exists pad :: 0 <= pad < k && Concat(Packets(values, k)) == values + Unknowns(pad)
  {
    FullConserve(values, k);
    var full, rest := FullPackets(values, k), Leftover(values, k);
    if rest == [] {
      assert full + [] == full;
      assert values + Unknowns(0) == values;
    } else {
      var pad := k - |rest|;
      var last := [rest + Unknowns(pad)];
      ConcatAppend(full, last);
      assert last[1..] == [];
      assert Concat(last) == rest + Unknowns(pad);
      assert Concat(full) + (rest + Unknowns(pad)) == values + Unknowns(pad);
    }
  }

  /** The number of packets is the number of values divided by the number of columns, rounded up. */
  lemma {:induction false} PacketCount(values: seq<Value>, k: nat)
    requires k > 0
    ensures |FullPackets(values, k)| * k + |Leftover(values, k)| == |values|
  {
    if |values| >= k {
      PacketCount(values[k..], k);
      Distribute(1, |FullPackets(values[k..], k)|, k);
    }
  }

  lemma {:induction false} CountRoundedUp(values: seq<Value>, k: nat)
    requires k > 0
    ensures var n := |Packets(values, k)|; |values| <= n * k < |values| + k
  {
    PacketCount(values, k);
    Distribute(|FullPackets(values, k)|, 1, k);
  }

  /** What has been read: whole packets, and the first values of another in the packet being filled. */
  ghost predicate Filling(values: seq<Value>, k: nat, packets: seq<seq<Value>>, packet: seq<Value>, column: nat, i: nat)
    requires k > 0
  {
    && |packet| == k && column < k && column <= i <= |values|
    && FullPackets(values, k) == packets + FullPackets(values[i - column..], k)
    && Leftover(values, k) == Leftover(values[i - column..], k)
    && packet[..column] == values[i - column..i]
  }

  lemma {:induction false} FillingStep(values: seq<Value>, k: nat, packets: seq<seq<Value>>, packet: seq<Value>, column: nat, i: nat)
    requires k > 0 && Filling(values, k, packets, packet, column, i) && i < |values|
    ensures var after := packet[column := values[i]];
      && (column + 1 < k ==> Filling(values, k, packets, after, column + 1, i + 1))
      && (column + 1 == k ==> Filling(values, k, packets + [after], after, 0, i + 1))
  {
    var after, start := packet[column := values[i]], i - column;
    assert after[..column + 1] == packet[..column] + [values[i]] == values[start..i + 1];
    if column + 1 == k {
      var left := values[start..];
      assert left[..k] == values[start..i + 1] == after[..k] == after;
      assert left[k..] == values[i + 1..];
      assert packets + ([after] + FullPackets(values[i + 1..], k)) == packets + [after] + FullPackets(values[i + 1..], k);
    }
  }

  lemma {:induction false} ReadAll(values: seq<Value>, k: nat, packets: seq<seq<Value>>, packet: seq<Value>, column: nat)
    requires k > 0 && Filling(values, k, packets, packet, column, |values|)
    ensures FullPackets(values, k) == packets && Leftover(values, k) == packet[..column]
  {
    var left := values[|values| - column..];
    assert FullPackets(left, k) == [] && Leftover(left, k) == left;
    assert packets + [] == packets;
  }
}
