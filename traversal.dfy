/**
 * The two traversal orders of the upload scripts and the command logs they
 * produce: `enumerate(firmware_data)` visits indices upwards, the reverse
 * script's `range(file_size - 1, -1, -1)` downwards, and index `i` always
 * becomes the write of `firmware_data[i]` at `LOAD_ADDRESS + i`.
 */
module Traversal {
  import opened Wrappers
  import opened Commands

  /** Load address both scripts configure. */
  const LoadAddress: nat := 0x4400_0000

  /** Indices 0, 1, ..., n - 1, as `enumerate` produces them. */
  function Ascending(n: nat): seq<nat> {
    if n == 0 then [] else Ascending(n - 1) + [n - 1]
  }

  /** Indices n - 1, ..., 1, 0, as `range(n - 1, -1, -1)` produces them. */
  function Descending(n: nat): seq<nat> {
    if n == 0 then [] else [n - 1] + Descending(n - 1)
  }

  function Reverse<T>(s: seq<T>): (r: seq<T>)
    ensures |r| == |s|
  {
    if s == [] then [] else Reverse(s[1..]) + [s[0]]
  }

  lemma {:induction false} ReverseAt<T>(s: seq<T>, k: nat)
    requires k < |s|
    ensures Reverse(s)[k] == s[|s| - 1 - k]
  {
    if k < |s| - 1 {
      ReverseAt(s[1..], k);
    }
  }

  lemma {:induction false} AscendingAt(n: nat)
    ensures |Ascending(n)| == n
    ensures forall k | 0 <= k < n :: Ascending(n)[k] == k
  {
    if n > 0 {
      AscendingAt(n - 1);
    }
  }

  lemma {:induction false} DescendingAt(n: nat)
    ensures |Descending(n)| == n
    ensures forall k | 0 <= k < n :: Descending(n)[k] == n - 1 - k
  {
    if n > 0 {
      DescendingAt(n - 1);
    }
  }

  /** The two orders visit the same indices, one the reverse of the other. */
  lemma DescendingIsReversedAscending(n: nat)
    ensures Descending(n) == Reverse(Ascending(n))
  {
    AscendingAt(n);
    DescendingAt(n);
    forall k | 0 <= k < n
      ensures Descending(n)[k] == Reverse(Ascending(n))[k]
    {
      ReverseAt(Ascending(n), k);
    }
  }

  /** The write one loop iteration performs for image index `i`. */
  function CommandAt(image: seq<Byte>, base: nat, i: nat): ByteCommand
    requires i < |image|
  {
    ByteCommand(base + i, image[i])
  }

  /** The writes of a traversal, one per visited index, in visiting order. */
  function Plan(image: seq<Byte>, base: nat, order: seq<nat>): (p: seq<ByteCommand>)
    requires forall k | 0 <= k < |order| :: order[k] < |image|
    ensures |p| == |order|
  {
    seq(|order|, k requires 0 <= k < |order| => CommandAt(image, base, order[k]))
  }

  function ForwardPlan(image: seq<Byte>, base: nat): (p: seq<ByteCommand>)
    ensures |p| == |image|
  {
    AscendingAt(|image|);
    Plan(image, base, Ascending(|image|))
  }

  function ReversePlan(image: seq<Byte>, base: nat): (p: seq<ByteCommand>)
    ensures |p| == |image|
  {
    DescendingAt(|image|);
    Plan(image, base, Descending(|image|))
  }

  /** The bytes sent for a sequence of writes, one command per write. */
  function Log(plan: seq<ByteCommand>): (log: seq<seq<Byte>>)
    ensures |log| == |plan|
  {
    seq(|plan|, k requires 0 <= k < |plan| => Encode(plan[k]))
  }

  function ForwardLog(image: seq<Byte>, base: nat): seq<seq<Byte>> {
    Log(ForwardPlan(image, base))
  }

  function ReverseLog(image: seq<Byte>, base: nat): seq<seq<Byte>> {
    Log(ReversePlan(image, base))
  }

  /** The first address past the image, which the scripts print as "End address". */
  function EndAddress(base: nat, size: nat): nat {
    base + size
  }

  /** The k-th forward write carries address `base + k` and byte `image[k]`; there are `|image|` of them. */
  lemma ForwardPlanAt(image: seq<Byte>, base: nat)
    ensures |ForwardPlan(image, base)| == |image|
    ensures forall k | 0 <= k < |image| :: ForwardPlan(image, base)[k] == ByteCommand(base + k, image[k])
  {
    AscendingAt(|image|);
  }

  /** The k-th reverse write carries address `base + (n-1-k)` and byte `image[n-1-k]`. */
  lemma ReversePlanAt(image: seq<Byte>, base: nat)
    ensures |ReversePlan(image, base)| == |image|
    ensures forall k | 0 <= k < |image| ::
      ReversePlan(image, base)[k] == ByteCommand(base + (|image| - 1 - k), image[|image| - 1 - k])
  {
    DescendingAt(|image|);
  }

  /** One more ascending iteration appends the command for index `i` to the log. */
  lemma ForwardLogStep(before: seq<seq<Byte>>, image: seq<Byte>, base: nat, i: nat)
    requires i < |image|
    ensures ForwardLog(image, base)[..i + 1]
      == ForwardLog(image, base)[..i] + [Encode(ByteCommand(base + i, image[i]))]
    // The same fact behind a prefix `before`, in the form the upload loop's invariant uses.
    ensures before + ForwardLog(image, base)[..i + 1]
      == before + ForwardLog(image, base)[..i] + [Encode(ByteCommand(base + i, image[i]))]
  {
    ForwardPlanAt(image, base);
    assert ForwardLog(image, base)[i] == Encode(ByteCommand(base + i, image[i]));
  }

  /** One more descending iteration appends the command for index `i` to the log. */
  lemma ReverseLogStep(before: seq<seq<Byte>>, image: seq<Byte>, base: nat, i: nat)
    requires i < |image|
    ensures ReverseLog(image, base)[..|image| - i]
      == ReverseLog(image, base)[..|image| - 1 - i] + [Encode(ByteCommand(base + i, image[i]))]
    // The same fact behind a prefix `before`, in the form the upload loop's invariant uses.
    ensures before + ReverseLog(image, base)[..|image| - i]
      == before + ReverseLog(image, base)[..|image| - 1 - i] + [Encode(ByteCommand(base + i, image[i]))]
  {
    ReversePlanAt(image, base);
    assert ReverseLog(image, base)[|image| - 1 - i] == Encode(ByteCommand(base + i, image[i]));
  }

  /** The descending plan is the ascending plan backwards. */
  lemma ReversePlanIsReversed(image: seq<Byte>, base: nat)
    ensures ReversePlan(image, base) == Reverse(ForwardPlan(image, base))
  {
    ForwardPlanAt(image, base);
    ReversePlanAt(image, base);
    var f, r := ForwardPlan(image, base), ReversePlan(image, base);
    forall k | 0 <= k < |r|
      ensures r[k] == Reverse(f)[k]
    {
      ReverseAt(f, k);
    }
  }

  /** Encoding commutes with reversal. */
  lemma LogOfReverse(plan: seq<ByteCommand>)
    ensures Log(Reverse(plan)) == Reverse(Log(plan))
  {
    forall k | 0 <= k < |plan|
      ensures Log(Reverse(plan))[k] == Reverse(Log(plan))[k]
    {
      ReverseAt(plan, k);
      ReverseAt(Log(plan), k);
    }
  }

  /** The reverse script's log is exactly the forward script's log backwards. */
  lemma ReverseLogIsReversedForwardLog(image: seq<Byte>, base: nat)
    ensures ReverseLog(image, base) == Reverse(ForwardLog(image, base))
  {
    ReversePlanIsReversed(image, base);
    LogOfReverse(ForwardPlan(image, base));
  }

  /** Forward addresses strictly increase: each address is written once, lowest first. */
  lemma ForwardStrictlyIncreasing(image: seq<Byte>, base: nat)
    ensures forall j, k | 0 <= j < k < |image| ::
      ForwardPlan(image, base)[j].address < ForwardPlan(image, base)[k].address
  {
    ForwardPlanAt(image, base);
  }

  /** Reverse addresses strictly decrease: each address is written once, highest first. */
  lemma ReverseStrictlyDecreasing(image: seq<Byte>, base: nat)
    ensures forall j, k | 0 <= j < k < |image| ::
      ReversePlan(image, base)[j].address > ReversePlan(image, base)[k].address
  {
    ReversePlanAt(image, base);
  }

  /** The set of written addresses of a plan. */
  function Addresses(plan: seq<ByteCommand>): set<nat> {
    set c | c in plan :: c.address
  }

  /**
   * Both traversals write every address from the load address up to, not
   * including, the printed end address, and nothing outside it.
   */
  lemma AddressesCovered(image: seq<Byte>, base: nat)
    ensures forall a: nat :: a in Addresses(ForwardPlan(image, base)) <==> base <= a < EndAddress(base, |image|)
    ensures forall a: nat :: a in Addresses(ReversePlan(image, base)) <==> base <= a < EndAddress(base, |image|)
  {
    ForwardPlanAt(image, base);
    ReversePlanAt(image, base);
    var f, r := ForwardPlan(image, base), ReversePlan(image, base);
    forall a: nat | base <= a < base + |image|
      ensures a in Addresses(f) && a in Addresses(r)
    {
      assert f[a - base].address == a;
      assert r[|image| - 1 - (a - base)].address == a;
    }
  }

  lemma {:induction false} MultisetOfReverse<T>(s: seq<T>)
    ensures multiset(Reverse(s)) == multiset(s)
  {
    if s != [] {
      MultisetOfReverse(s[1..]);
      assert s == [s[0]] + s[1..];
    }
  }

  /** The two scripts send the same (address, byte) pairs, each pair as often. */
  lemma SameWrites(image: seq<Byte>, base: nat)
    ensures multiset(ReversePlan(image, base)) == multiset(ForwardPlan(image, base))
    ensures (set c | c in ReversePlan(image, base)) == (set c | c in ForwardPlan(image, base))
  {
    var f, r := ForwardPlan(image, base), ReversePlan(image, base);
    ReversePlanIsReversed(image, base);
    MultisetOfReverse(f);
    forall c ensures c in r <==> c in f {
      assert c in r <==> c in multiset(r);
    }
  }

  /** Decoding every line of a log; `None` as soon as one line is malformed. */
  function DecodeAll(log: seq<seq<Byte>>): (r: Option<seq<ByteCommand>>)
    ensures r.Some? ==> |r.value| == |log|
  {
    if log == [] then Some([])
    else match (DecodeAll(log[..|log| - 1]), Decode(log[|log| - 1]))
      case (Some(init), Some(c)) => Some(init + [c])
      case _ => None
  }

  /** Every address of the plan fits in 32 bits. */
  ghost predicate Fits(plan: seq<ByteCommand>) {
    forall k | 0 <= k < |plan| :: plan[k].address < AddressLimit
  }

  /** A log of encoded writes decodes back to them iff every address fits in 32 bits. */
  lemma {:induction false} DecodeAllLog(plan: seq<ByteCommand>)
    ensures DecodeAll(Log(plan)) == Some(plan) <==> Fits(plan)
  {
    if plan != [] {
      var init, last := plan[..|plan| - 1], plan[|plan| - 1];
      var log := Log(plan);
      assert log[..|log| - 1] == Log(init);
      assert log[|log| - 1] == Encode(last);
      assert plan == init + [last];
      assert Fits(plan) <==> Fits(init) && last.address < AddressLimit;
      DecodeAllLog(init);
      DecodeEncode(last);
      if DecodeAll(log) == Some(plan) {
        var tail := DecodeAll(Log(init));
        assert tail.Some? && tail.value + [Decode(Encode(last)).value] == init + [last];
        assert tail.value == (init + [last])[..|init|];
      }
    }
  }

  /** RAM after a sequence of writes: a later write to an address overrides an earlier one. */
  function Memory(writes: seq<ByteCommand>): map<nat, Byte> {
    if writes == [] then map[]
    else
      var last := writes[|writes| - 1];
      Memory(writes[..|writes| - 1])[last.address := last.value]
  }

  /** `ram` holds exactly image bytes `lo .. hi - 1`, each at its load address. */
  ghost predicate HoldsImage(ram: map<nat, Byte>, image: seq<Byte>, base: nat, lo: nat, hi: nat)
    requires lo <= hi <= |image|
  {
    (forall a: nat :: a in ram <==> base + lo <= a < base + hi)
    && forall i | lo <= i < hi :: base + i in ram && ram[base + i] == image[i]
  }

  /** Writing image byte `hi` at its address extends the range held upwards. */
  lemma HoldsImageAbove(ram: map<nat, Byte>, image: seq<Byte>, base: nat, lo: nat, hi: nat)
    requires lo <= hi < |image|
    requires HoldsImage(ram, image, base, lo, hi)
    ensures HoldsImage(ram[base + hi := image[hi]], image, base, lo, hi + 1)
  {
  }

  /** Writing image byte `lo - 1` at its address extends the range held downwards. */
  lemma HoldsImageBelow(ram: map<nat, Byte>, image: seq<Byte>, base: nat, lo: nat, hi: nat)
    requires 0 < lo <= hi <= |image|
    requires HoldsImage(ram, image, base, lo, hi)
    ensures HoldsImage(ram[base + lo - 1 := image[lo - 1]], image, base, lo - 1, hi)
  {
  }

  /** Running the `k`-th write after the first `k - 1` updates exactly its address. */
  lemma MemoryStep(writes: seq<ByteCommand>, k: nat)
    requires 0 < k <= |writes|
    ensures Memory(writes[..k]) == Memory(writes[..k - 1])[writes[k - 1].address := writes[k - 1].value]
  {
    assert writes[..k][..k - 1] == writes[..k - 1];
  }

  lemma {:induction false} ForwardMemoryPrefix(image: seq<Byte>, base: nat, k: nat)
    requires k <= |image|
    ensures HoldsImage(Memory(ForwardPlan(image, base)[..k]), image, base, 0, k)
  {
    if k > 0 {
      var p := ForwardPlan(image, base);
      ForwardMemoryPrefix(image, base, k - 1);
      ForwardPlanAt(image, base);
      MemoryStep(p, k);
      HoldsImageAbove(Memory(p[..k - 1]), image, base, 0, k - 1);
    }
  }

  lemma {:induction false} ReverseMemoryPrefix(image: seq<Byte>, base: nat, k: nat)
    requires k <= |image|
    ensures HoldsImage(Memory(ReversePlan(image, base)[..k]), image, base, |image| - k, |image|)
  {
    if k > 0 {
      var n := |image|;
      var p := ReversePlan(image, base);
      ReverseMemoryPrefix(image, base, k - 1);
      ReversePlanAt(image, base);
      MemoryStep(p, k);
      HoldsImageBelow(Memory(p[..k - 1]), image, base, n - k + 1, n);
    }
  }

  /** An image ending at or below 2^32 gives plans whose every address fits in 32 bits. */
  lemma PlansFit(image: seq<Byte>, base: nat)
    requires EndAddress(base, |image|) <= AddressLimit
    ensures Fits(ForwardPlan(image, base)) && Fits(ReversePlan(image, base))
  {
    ForwardPlanAt(image, base);
    ReversePlanAt(image, base);
  }

  /**
   * What RAM holds after running a complete log: the image at
   * the load address, whichever order it was sent in, provided every address
   * fits in 32 bits.
   */
  lemma UploadLoadsImage(image: seq<Byte>, base: nat)
    requires EndAddress(base, |image|) <= AddressLimit
    ensures DecodeAll(ForwardLog(image, base)) == Some(ForwardPlan(image, base))
    ensures DecodeAll(ReverseLog(image, base)) == Some(ReversePlan(image, base))
    ensures HoldsImage(Memory(ForwardPlan(image, base)), image, base, 0, |image|)
    ensures HoldsImage(Memory(ReversePlan(image, base)), image, base, 0, |image|)
  {
    PlansFit(image, base);
    var f, r := ForwardPlan(image, base), ReversePlan(image, base);
    DecodeAllLog(f);
    DecodeAllLog(r);
    ForwardMemoryPrefix(image, base, |image|);
    ReverseMemoryPrefix(image, base, |image|);
    assert f[..|image|] == f;
    assert r[..|image|] == r;
  }

  /** A non-empty image that runs past 2^32 leaves a line the strict reader refuses, in both orders. */
  lemma OversizedImageUndecodable(image: seq<Byte>, base: nat)
    requires |image| > 0 && EndAddress(base, |image|) > AddressLimit
    ensures DecodeAll(ForwardLog(image, base)).None?
    ensures DecodeAll(ReverseLog(image, base)).None?
  {
    ForwardPlanAt(image, base);
    ReversePlanAt(image, base);
    var n := |image|;
    var f, r := ForwardPlan(image, base), ReversePlan(image, base);
    DecodeEncode(f[n - 1]);
    DecodeEncode(r[0]);
    assert Log(f)[n - 1] == Encode(f[n - 1]);
    DecodeAllNone(Log(f), n - 1);
    DecodeAllNone(Log(r), 0);
  }

  /** One unreadable line makes the whole log unreadable. */
  lemma {:induction false} DecodeAllNone(log: seq<seq<Byte>>, k: nat)
    requires k < |log| && Decode(log[k]).None?
    ensures DecodeAll(log).None?
  {
    if k < |log| - 1 {
      DecodeAllNone(log[..|log| - 1], k);
    }
  }

  /** With the scripts' load address, any image of up to 0xbc000000 bytes (2.9375 GiB) decodes in full. */
  lemma LoadAddressRoom(image: seq<Byte>)
    requires |image| <= 0xbc00_0000
    ensures DecodeAll(ForwardLog(image, LoadAddress)) == Some(ForwardPlan(image, LoadAddress))
    ensures DecodeAll(ReverseLog(image, LoadAddress)) == Some(ReversePlan(image, LoadAddress))
  {
    UploadLoadsImage(image, LoadAddress);
  }
}
