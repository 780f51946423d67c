/** The heavy-flow sketch (control Sketch of platform/p4src/shc_real_time_sketch.p4):
    two register arrays that count runs of equal fingerprints per bucket. */
module Sketches {
  const HIT_COUNT: int := 3

  type Fingerprint = x: int | 0 <= x < 0x1_0000  // bit<16>

  // A packet as the registers see it: hash1 and hash2 of its header fields.
  datatype Packet = Packet(bucket: nat, fingerprint: Fingerprint)

  // Length of the run of equal fingerprints that ends the packets of bucket b. The
  // registers start as after one packet of fingerprint 0.
  function Last(history: seq<Packet>, b: nat): Fingerprint {
    if history == [] then 0
    else
      var p := history[|history| - 1];
      if p.bucket == b then p.fingerprint else Last(history[..|history| - 1], b)
  }

  function Run(history: seq<Packet>, b: nat): (r: nat)
    ensures r >= 1
  {
    if history == [] then 1
    else
      var init, p := history[..|history| - 1], history[|history| - 1];
      if p.bucket != b then Run(init, b)
      else if p.fingerprint == Last(init, b) then Run(init, b) + 1
      else 1
  }

  // The packet after history raises eflag exactly when it completes a multiple of
  // 3 in its run.
  predicate Flagged(history: seq<Packet>, p: Packet) {
    Run(history + [p], p.bucket) % 3 == 0
  }

  function Packets(history: seq<Packet>, b: nat): nat {
    if history == [] then 0
    else Packets(history[..|history| - 1], b) + if history[|history| - 1].bucket == b then 1 else 0
  }

  function Flags(history: seq<Packet>, b: nat): nat {
    if history == [] then 0
    else
      var init, p := history[..|history| - 1], history[|history| - 1];
      Flags(init, b) + if p.bucket == b && Flagged(init, p) then 1 else 0
  }

  lemma RunOfSnoc(history: seq<Packet>, p: Packet, b: nat)
    ensures Last(history + [p], b) == if p.bucket == b then p.fingerprint else Last(history, b)
    ensures Run(history + [p], b) ==
            if p.bucket != b then Run(history, b)
            else if p.fingerprint == Last(history, b) then Run(history, b) + 1 else 1
    ensures Packets(history + [p], b) == Packets(history, b) + if p.bucket == b then 1 else 0
    ensures Flags(history + [p], b) == Flags(history, b) + if p.bucket == b && Flagged(history, p) then 1 else 0
  {
  }

  // What the two registers of a bucket hold after a history.
  function CounterOf(history: seq<Packet>, b: nat): int {
    (Run(history, b) - 1) % 3 + 1
  }

  // The counter register is a run length modulo 3: it advances with the run, restarts
  // after 3, and shows 3 exactly when the packet is flagged.
  lemma CounterStep(history: seq<Packet>, p: Packet, b: nat)
    ensures CounterOf(history + [p], b) ==
            if p.bucket != b then CounterOf(history, b)
            else if p.fingerprint == Last(history, b) && CounterOf(history, b) < HIT_COUNT
            then CounterOf(history, b) + 1
            else 1
    ensures Flagged(history, p) <==> CounterOf(history + [p], p.bucket) == HIT_COUNT
  {
    RunOfSnoc(history, p, b);
    CycleStep(Run(history, b));
    CycleStep(Run(history + [p], p.bucket));
  }

  lemma CycleStep(r: nat)
    requires r >= 1
    ensures r % 3 == if (r - 1) % 3 + 1 < 3 then (r - 1) % 3 + 1 else 0
  {
  }

  // A packet of another bucket changes nothing in bucket b.
  lemma BucketsAreIndependent(history: seq<Packet>, p: Packet, b: nat)
    requires p.bucket != b
    ensures CounterOf(history + [p], b) == CounterOf(history, b) && Last(history + [p], b) == Last(history, b)
    ensures Flags(history + [p], b) == Flags(history, b)
  {
  }

  // Three flags cost at least eight packets: the first run may start at the initial
  // contents, every later flag needs three packets of its own.
  lemma {:induction false} FlagsArePaidFor(history: seq<Packet>, b: nat)
    ensures 3 * Flags(history, b) + CounterOf(history, b) % 3 <= Packets(history, b) + 1
  {
    if history == [] {
    } else {
      var init, p := history[..|history| - 1], history[|history| - 1];
      assert history == init + [p];
      FlagsArePaidFor(init, b);
      RunOfSnoc(init, p, b);
      if p.bucket == b {
        PaidStep(Run(init, b), Run(history, b), Flags(init, b), Flags(history, b), Packets(init, b));
      }
    }
  }

  lemma PaidStep(r: nat, r': nat, f: nat, f': nat, packets: nat)
    requires 1 <= r && (r' == r + 1 || r' == 1) && f' == f + if r' % 3 == 0 then 1 else 0
    requires 3 * f + ((r - 1) % 3 + 1) % 3 <= packets + 1
    ensures 3 * f' + ((r' - 1) % 3 + 1) % 3 <= packets + 2
  {
  }

  lemma FlagBound(history: seq<Packet>, b: nat)
    ensures 3 * Flags(history, b) <= Packets(history, b) + 1
  {
    FlagsArePaidFor(history, b);
  }

  // count packets of fingerprint fp in bucket b, one after the other.
  function Burst(b: nat, fp: Fingerprint, count: nat): (r: seq<Packet>)
    ensures |r| == count
  {
    if count == 0 then [] else Burst(b, fp, count - 1) + [Packet(b, fp)]
  }

  // A burst of one flow lengthens the run packet by packet.
  lemma {:induction false} BurstRuns(history: seq<Packet>, b: nat, fp: Fingerprint, count: nat)
    requires count > 0
    ensures Last(history + Burst(b, fp, count), b) == fp
    ensures Run(history + Burst(b, fp, count), b) == (if Last(history, b) == fp then Run(history, b) else 0) + count
    ensures Packets(history + Burst(b, fp, count), b) == Packets(history, b) + count
  {
    var init := Burst(b, fp, count - 1);
    assert history + Burst(b, fp, count) == (history + init) + [Packet(b, fp)];
    RunOfSnoc(history + init, Packet(b, fp), b);
    if count > 1 {
      BurstRuns(history, b, fp, count - 1);
    } else {
      assert history + init == history;
    }
  }

  // f grows by one exactly at those k for which s + k is a multiple of 3.
  ghost predicate Rises(f: nat -> nat, s: nat, k: nat) {
    k > 0 ==> f(k) == f(k - 1) + if (s + k) % 3 == 0 then 1 else 0
  }

  lemma {:induction false} RisesByThirds(f: nat -> nat, s: nat, n: nat)
    requires forall k: nat {:trigger Rises(f, s, k)} :: k <= n ==> Rises(f, s, k)
    ensures f(n) == f(0) + (s + n) / 3 - s / 3
  {
    if n == 0 {
    } else {
      RisesByThirds(f, s, n - 1);
      assert Rises(f, s, n);
    }
  }

  // Whatever came before, a burst of n packets raises floor((s + n) / 3) - floor(s / 3)
  // flags, s being the length of the run it continues: a heavy flow cannot hide.
  lemma BurstFlags(history: seq<Packet>, b: nat, fp: Fingerprint, count: nat)
    ensures var s := if Last(history, b) == fp then Run(history, b) else 0;
            Flags(history + Burst(b, fp, count), b) == Flags(history, b) + (s + count) / 3 - s / 3
  {
    var s := if Last(history, b) == fp then Run(history, b) else 0;
    var f := (n: nat) => Flags(history + Burst(b, fp, n), b);
    forall k: nat | k <= count
      ensures Rises(f, s, k)
    {
      if k > 0 {
        BurstStep(history, b, fp, k, s);
      }
    }
    RisesByThirds(f, s, count);
    assert history + Burst(b, fp, 0) == history;
  }

  lemma BurstStep(history: seq<Packet>, b: nat, fp: Fingerprint, count: nat, s: nat)
    requires count > 0 && s == if Last(history, b) == fp then Run(history, b) else 0
    ensures Flags(history + Burst(b, fp, count), b) ==
            Flags(history + Burst(b, fp, count - 1), b) + if (s + count) % 3 == 0 then 1 else 0
  {
    var r := s + count;
    assert r == Run(history + Burst(b, fp, count), b) by {
      BurstRuns(history, b, fp, count);
    }
    BurstGrows(history, b, fp, count, r);
  }

  // The last packet of a burst raises a flag when the run it completes is a multiple of 3.
  lemma BurstGrows(history: seq<Packet>, b: nat, fp: Fingerprint, count: nat, r: nat)
    requires count > 0 && r == Run(history + Burst(b, fp, count), b)
    ensures Flags(history + Burst(b, fp, count), b) ==
            Flags(history + Burst(b, fp, count - 1), b) + if r % 3 == 0 then 1 else 0
  {
    var init := Burst(b, fp, count - 1);
    assert history + Burst(b, fp, count) == (history + init) + [Packet(b, fp)];
    RunOfSnoc(history + init, Packet(b, fp), b);
  }

  // A bucket without packets shows its initial registers: fingerprint 0, seen once.
  lemma {:induction false} Untouched(history: seq<Packet>, b: nat)
    requires forall p :: p in history ==> p.bucket != b
    ensures Last(history, b) == 0 && Run(history, b) == 1 && CounterOf(history, b) == 1
  {
    if history == [] {
    } else {
      var init := history[..|history| - 1];
      assert forall p :: p in init ==> p in history;
      Untouched(init, b);
    }
  }

  // What a fresh bucket does with a burst: packet n is flagged if n is a multiple of 3, or
  // n + 1 for fingerprint 0, which the register holds from the start.
  lemma FreshBurst(history: seq<Packet>, b: nat, fp: Fingerprint, n: nat)
    requires 0 < n && forall p :: p in history ==> p.bucket != b
    ensures Flagged(history + Burst(b, fp, n - 1), Packet(b, fp)) <==> (n + if fp == 0 then 1 else 0) % 3 == 0
    ensures Last(history + Burst(b, fp, n), b) == fp
    ensures CounterOf(history + Burst(b, fp, n), b) == (n - 1 + if fp == 0 then 1 else 0) % 3 + 1
  {
    Untouched(history, b);
    BurstRuns(history, b, fp, n);
    assert (history + Burst(b, fp, n - 1)) + [Packet(b, fp)] == history + Burst(b, fp, n);
  }

  class Sketch {
    const buckets: nat                     // 1 << HASH_BUCKET_WIDTH
    const hash11: array<Fingerprint>       // hash1_1
    const hash11n: array<int>              // hash1_1_n, bit<8>
    var pktNum: int                        // pkt_num, bit<32>
    ghost var history: seq<Packet>

    ghost predicate Valid()
      reads this, hash11, hash11n
    {
      && hash11.Length == hash11n.Length == buckets
      && (forall b :: 0 <= b < buckets ==> hash11[b] == Last(history, b) && hash11n[b] == CounterOf(history, b))
      && pktNum == |history| % 0x1_0000_0000
    }

    constructor (n: nat)
      ensures Valid() && buckets == n && history == [] && fresh(hash11) && fresh(hash11n)
      ensures forall b :: 0 <= b < n ==> hash11[b] == 0 && hash11n[b] == 1
    {
      buckets := n;
      hash11 := new Fingerprint[n](_ => 0);
      hash11n := new int[n](_ => 1);
      pktNum, history := 0, [];
    }

    // RegisterAction pkt_update_1
    method PktUpdate1(p: Packet) returns (same: bool)
      requires p.bucket < hash11.Length
      modifies hash11
      ensures same <==> old(hash11[p.bucket]) == p.fingerprint
      ensures hash11[..] == old(hash11[..])[p.bucket := p.fingerprint]
    {
      if p.fingerprint == hash11[p.bucket] {
        same := true;
      } else {
        same := false;
        hash11[p.bucket] := p.fingerprint;
      }
    }

    // RegisterAction pkt_num_1
    method PktNum1(b: nat, same: bool) returns (num: int)
      requires b < hash11n.Length
      modifies hash11n
      ensures num == if same && old(hash11n[b]) < HIT_COUNT then old(hash11n[b]) + 1 else 1
      ensures hash11n[..] == old(hash11n[..])[b := num]
    {
      if same && hash11n[b] < HIT_COUNT {
        hash11n[b] := hash11n[b] + 1;
      } else {
        hash11n[b] := 1;
      }
      num := hash11n[b];
    }

    // The apply block for a packet whose hashes are p.
    method Apply(p: Packet) returns (eflag: bool)
      requires Valid() && p.bucket < buckets
      modifies this, hash11, hash11n
      ensures Valid() && history == old(history) + [p]
      ensures eflag <==> Flagged(old(history), p)
    {
      ghost var history0, old11, old11n := history, hash11[..], hash11n[..];
      var same := PktUpdate1(p);
      var num := PktNum1(p.bucket, same);
      pktNum := (pktNum + 1) % 0x1_0000_0000;
      eflag := num == HIT_COUNT;
      history := history + [p];
      forall b | 0 <= b < buckets
        ensures hash11[b] == Last(history, b) && hash11n[b] == CounterOf(history, b)
      {
        RunOfSnoc(history0, p, b);
        CounterStep(history0, p, b);
        assert hash11[..][b] == old11[p.bucket := p.fingerprint][b] && hash11n[..][b] == old11n[p.bucket := num][b];
      }
      CounterStep(history0, p, p.bucket);
      PacketCount(|history0|);
    }

    lemma PacketCount(n: nat)
      ensures (n % 0x1_0000_0000 + 1) % 0x1_0000_0000 == (n + 1) % 0x1_0000_0000
    {
    }
  }
}
