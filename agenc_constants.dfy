/**
 * The constant tables of the AgenC coordination client
 * (app/src/lib/agenc/constants.ts): address seed tags, the three on-chain
 * enums with their numeric discriminants, and the capability bitmask with
 * its display names.
 */
module AgencConstants {
  import opened Wrappers

  // ---------------------------------------------------------------------
  // Address seed tags
  // ---------------------------------------------------------------------

  const ProtocolSeed: string := "protocol"
  const TaskSeed: string := "task"
  const ClaimSeed: string := "claim"
  const AgentSeed: string := "agent"
  const EscrowSeed: string := "escrow"

  /** The `SEEDS` table in declaration order. */
  const Seeds: seq<string> := [ProtocolSeed, TaskSeed, ClaimSeed, AgentSeed, EscrowSeed]

  /** No two seed tags coincide, so the accounts they prefix live in disjoint address families. */
  lemma SeedsDistinct()
    ensures |Seeds| == 5
    ensures forall i, j :: 0 <= i < j < |Seeds| ==> Seeds[i] != Seeds[j]
  {
  }

  // ---------------------------------------------------------------------
  // Enums and their discriminants
  // ---------------------------------------------------------------------

  datatype AgentStatus = Inactive | Active | Busy | Suspended

  datatype TaskStatus = Open | InProgress | PendingValidation | Completed | Cancelled | Disputed

  datatype TaskType = Exclusive | Collaborative | Competitive

  /** The number each `AgentStatus` member stands for. */
  function AgentStatusValue(s: AgentStatus): nat {
    match s
    case Inactive => 0
    case Active => 1
    case Busy => 2
    case Suspended => 3
  }

  /** The `AgentStatus` member a number stands for, if any: the discriminants are exactly 0..3. */
  function AgentStatusOf(n: int): (r: Option<AgentStatus>)
    ensures r.Some? <==> 0 <= n < 4
    ensures r.Some? ==> AgentStatusValue(r.value) == n
  {
    if n == 0 then Some(Inactive)
    else if n == 1 then Some(Active)
    else if n == 2 then Some(Busy)
    else if n == 3 then Some(Suspended)
    else None
  }

  lemma AgentStatusValueRoundTrip(s: AgentStatus)
    ensures AgentStatusValue(s) < 4
    ensures AgentStatusOf(AgentStatusValue(s)) == Some(s)
  {
  }

  function TaskStatusValue(s: TaskStatus): nat {
    match s
    case Open => 0
    case InProgress => 1
    case PendingValidation => 2
    case Completed => 3
    case Cancelled => 4
    case Disputed => 5
  }

  /** The `TaskStatus` member a number stands for, if any: the discriminants are exactly 0..5. */
  function TaskStatusOf(n: int): (r: Option<TaskStatus>)
    ensures r.Some? <==> 0 <= n < 6
    ensures r.Some? ==> TaskStatusValue(r.value) == n
  {
    if n == 0 then Some(Open)
    else if n == 1 then Some(InProgress)
    else if n == 2 then Some(PendingValidation)
    else if n == 3 then Some(Completed)
    else if n == 4 then Some(Cancelled)
    else if n == 5 then Some(Disputed)
    else None
  }

  lemma TaskStatusValueRoundTrip(s: TaskStatus)
    ensures TaskStatusValue(s) < 6
    ensures TaskStatusOf(TaskStatusValue(s)) == Some(s)
  {
  }

  function TaskTypeValue(t: TaskType): nat {
    match t
    case Exclusive => 0
    case Collaborative => 1
    case Competitive => 2
  }

  /** The `TaskType` member a number stands for, if any: the discriminants are exactly 0..2. */
  function TaskTypeOf(n: int): (r: Option<TaskType>)
    ensures r.Some? <==> 0 <= n < 3
    ensures r.Some? ==> TaskTypeValue(r.value) == n
  {
    if n == 0 then Some(Exclusive)
    else if n == 1 then Some(Collaborative)
    else if n == 2 then Some(Competitive)
    else None
  }

  lemma TaskTypeValueRoundTrip(t: TaskType)
    ensures TaskTypeValue(t) < 3
    ensures TaskTypeOf(TaskTypeValue(t)) == Some(t)
  {
  }

  // ---------------------------------------------------------------------
  // Capability bits
  // ---------------------------------------------------------------------

  /** The keys of the `Capability` table; `CapabilityName` in the client. */
  datatype Capability =
    | Compute | Inference | Storage | Network | Sensor
    | Actuator | Coordinator | Arbiter | Validator | Aggregator

  /** The `Capability` table's keys in declaration order, which is the order `Object.entries` visits them. */
  const AllCapabilities: seq<Capability> :=
    [Compute, Inference, Storage, Network, Sensor, Actuator, Coordinator, Arbiter, Validator, Aggregator]

  /** The bit position of each capability. */
  function Index(c: Capability): nat {
    match c
    case Compute => 0
    case Inference => 1
    case Storage => 2
    case Network => 3
    case Sensor => 4
    case Actuator => 5
    case Coordinator => 6
    case Arbiter => 7
    case Validator => 8
    case Aggregator => 9
  }

  /** The key as the client spells it. */
  function Key(c: Capability): string {
    match c
    case Compute => "COMPUTE"
    case Inference => "INFERENCE"
    case Storage => "STORAGE"
    case Network => "NETWORK"
    case Sensor => "SENSOR"
    case Actuator => "ACTUATOR"
    case Coordinator => "COORDINATOR"
    case Arbiter => "ARBITER"
    case Validator => "VALIDATOR"
    case Aggregator => "AGGREGATOR"
  }

  function Pow2(n: nat): (p: nat)
    ensures p >= 1
  {
    if n == 0 then 1 else 2 * Pow2(n - 1)
  }

  /** `1n << i`. */
  function Value(c: Capability): nat {
    Pow2(Index(c))
  }

  /**
   * Bit `i` of `x` in two's complement, which is how a `bigint` `&` sees a
   * negative operand: Dafny's `/` by a positive divisor rounds down and `%`
   * is never negative, so halving walks the same bit string.
   */
  predicate Bit(x: int, i: nat)
    decreases i
  {
    if i == 0 then x % 2 == 1 else Bit(x / 2, i - 1)
  }

  /** Every key sits at its own position of the declaration order, and every key is listed. */
  lemma AllCapabilitiesInOrder()
    ensures |AllCapabilities| == 10
    ensures forall i :: 0 <= i < 10 ==> Index(AllCapabilities[i]) == i
    ensures forall c :: AllCapabilities[Index(c)] == c
  {
    forall c
      ensures AllCapabilities[Index(c)] == c
    {
      match c
      case Compute =>
      case Inference =>
      case Storage =>
      case Network =>
      case Sensor =>
      case Actuator =>
      case Coordinator =>
      case Arbiter =>
      case Validator =>
      case Aggregator =>
    }
  }

  /** Each capability is a single bit: bit `Index(c)` of `Value(c)` is set, and no other. */
  lemma {:induction false} PowerBits(n: nat, i: nat)
    ensures Bit(Pow2(n), i) <==> i == n
  {
    if i == 0 {
      if n > 0 {
        assert Pow2(n) % 2 == 0;
      }
    } else if n == 0 {
      ZeroHasNoBits(i - 1);
    } else {
      assert Pow2(n) / 2 == Pow2(n - 1);
      PowerBits(n - 1, i - 1);
    }
  }

  lemma {:induction false} ZeroHasNoBits(i: nat)
    ensures !Bit(0, i)
  {
    if i > 0 {
      ZeroHasNoBits(i - 1);
    }
  }

  /**
   * The capability constants are pairwise disjoint single bits, one for
   * each position 0..9: a bit of `Value(c)` is set exactly at `Index(c)`.
   */
  lemma CapabilityBits(c: Capability, d: Capability)
    ensures Value(c) >= 1 && Value(c) <= 512
    ensures Bit(Value(c), Index(d)) <==> c == d
    ensures forall i: nat :: Bit(Value(c), i) <==> i == Index(c)
  {
    forall i: nat
      ensures Bit(Value(c), i) <==> i == Index(c)
    {
      PowerBits(Index(c), i);
    }
    assert Pow2(0) == 1 && Pow2(9) == 512;
  }

  /** The union of all capability bits: 0x3FF, which is 1023. */
  function CapabilityUnion(cs: seq<Capability>): nat {
    if cs == [] then 0 else Value(cs[0]) + CapabilityUnion(cs[1..])
  }

  /** The keys from position `k` on add up to the bits `k..9`. */
  lemma {:induction false} UnionFrom(k: nat)
    requires k <= 10
    ensures CapabilityUnion(AllCapabilities[k..]) == Pow2(10) - Pow2(k)
    decreases 10 - k
  {
    if k < 10 {
      AllCapabilitiesInOrder();
      UnionFrom(k + 1);
      assert AllCapabilities[k..][1..] == AllCapabilities[k + 1..];
    }
  }

  /** Adding up the ten distinct single bits gives 0x3FF: bits 0..9 set, nothing above. */
  lemma CapabilityUnionIsLowTenBits()
    ensures CapabilityUnion(AllCapabilities) == 0x3FF
  {
    UnionFrom(0);
    assert AllCapabilities[0..] == AllCapabilities;
    assert Pow2(10) == 1024 by {
      assert Pow2(2) == 4 && Pow2(5) == 32 && Pow2(8) == 256;
    }
  }

  /** `CAPABILITY_NAMES`: the display label of every key. */
  const CapabilityNames: map<string, string> := map[
    "COMPUTE" := "Compute",
    "INFERENCE" := "Inference",
    "STORAGE" := "Storage",
    "NETWORK" := "Network",
    "SENSOR" := "Sensor",
    "ACTUATOR" := "Actuator",
    "COORDINATOR" := "Coordinator",
    "ARBITER" := "Arbiter",
    "VALIDATOR" := "Validator",
    "AGGREGATOR" := "Aggregator"
  ]

  /** `CAPABILITY_NAMES` labels every key of `Capability` and nothing else. */
  lemma CapabilityNamesCoverKeys()
    ensures forall c :: Key(c) in CapabilityNames
    ensures forall k :: k in CapabilityNames ==> exists i :: 0 <= i < |AllCapabilities| && Key(AllCapabilities[i]) == k
  {
    forall k | k in CapabilityNames
      ensures exists i :: 0 <= i < |AllCapabilities| && Key(AllCapabilities[i]) == k
    {
      if k == "COMPUTE" {
        assert Key(AllCapabilities[0]) == k;
      } else if k == "INFERENCE" {
        assert Key(AllCapabilities[1]) == k;
      } else if k == "STORAGE" {
        assert Key(AllCapabilities[2]) == k;
      } else if k == "NETWORK" {
        assert Key(AllCapabilities[3]) == k;
      } else if k == "SENSOR" {
        assert Key(AllCapabilities[4]) == k;
      } else if k == "ACTUATOR" {
        assert Key(AllCapabilities[5]) == k;
      } else if k == "COORDINATOR" {
        assert Key(AllCapabilities[6]) == k;
      } else if k == "ARBITER" {
        assert Key(AllCapabilities[7]) == k;
      } else if k == "VALIDATOR" {
        assert Key(AllCapabilities[8]) == k;
      } else {
        assert Key(AllCapabilities[9]) == k;
      }
    }
  }

  /** No two keys share a spelling, and no two share a label: each pair differs in its first letter or its length. */
  lemma KeysAndLabelsDistinct(c: Capability, d: Capability)
    requires c != d
    ensures Key(c) != Key(d)
    ensures CapabilityNames[Key(c)] != CapabilityNames[Key(d)]
  {
    assert Key(c)[0] != Key(d)[0] || |Key(c)| != |Key(d)|;
  }

  /** The label `CAPABILITY_NAMES` gives a capability. */
  function Label(c: Capability): string {
    assert Key(c) in CapabilityNames;
    CapabilityNames[Key(c)]
  }
}
