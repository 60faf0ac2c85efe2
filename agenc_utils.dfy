/**
 * The decoding and display helpers of the AgenC client
 * (app/src/lib/agenc/utils.ts): tagged-enum parsing with defaults, the
 * label tables, the capability bitmask decoder and the string shorteners.
 */
module AgencUtils {
  import opened Wrappers
  import opened Bytes
  import opened Hex
  import opened AgencConstants

  // ---------------------------------------------------------------------
  // Tagged enums
  // ---------------------------------------------------------------------

  /**
   * What the parse functions can be handed: Anchor decodes an on-chain enum
   * as an object with one key, but the argument is untyped, so it may also
   * be `null` or no object at all. An object is seen through its
   * `Object.keys` list.
   */
  datatype EnumValue = NotAnObject | Object(keys: seq<string>)

  /** `Object.keys(v)[0]` for an object; nothing otherwise (an empty object yields `undefined`). */
  function FirstKey(v: EnumValue): (r: Option<string>)
    ensures r.Some? <==> v.Object? && |v.keys| > 0
  {
    if v.Object? && |v.keys| > 0 then Some(v.keys[0]) else None
  }

  /** The key Anchor uses for each `AgentStatus` variant. */
  function AgentStatusKey(s: AgentStatus): string {
    match s
    case Inactive => "inactive"
    case Active => "active"
    case Busy => "busy"
    case Suspended => "suspended"
  }

  /** `parseAgentStatus`: a known first key selects its variant; everything else is `Inactive`. */
  function ParseAgentStatus(v: EnumValue): (r: AgentStatus)
    ensures r != Inactive ==> FirstKey(v) == Some(AgentStatusKey(r))
  {
    match FirstKey(v)
    case Some(key) =>
      if key == "inactive" then Inactive
      else if key == "active" then Active
      else if key == "busy" then Busy
      else if key == "suspended" then Suspended
      else Inactive
    case None => Inactive
  }

  /** Parsing the object Anchor produces for a variant gives that variant back. */
  lemma ParseAgentStatusRoundTrip(s: AgentStatus, rest: seq<string>)
    ensures ParseAgentStatus(Object([AgentStatusKey(s)] + rest)) == s
  {
  }

  /** `agentStatusLabel`: a label per discriminant 0..3, `'Unknown'` for any other number. */
  function AgentStatusLabel(n: int): (r: string)
    ensures r == "Unknown" <==> AgentStatusOf(n).None?
  {
    if n == 0 then "Inactive"
    else if n == 1 then "Active"
    else if n == 2 then "Busy"
    else if n == 3 then "Suspended"
    else "Unknown"
  }

  /** The key Anchor uses for each `TaskStatus` variant. */
  function TaskStatusKey(s: TaskStatus): string {
    match s
    case Open => "open"
    case InProgress => "inProgress"
    case PendingValidation => "pendingValidation"
    case Completed => "completed"
    case Cancelled => "cancelled"
    case Disputed => "disputed"
  }

  /** `parseTaskStatus`: a known first key selects its variant; everything else is `Open`. */
  function ParseTaskStatus(v: EnumValue): (r: TaskStatus)
    ensures r != Open ==> FirstKey(v) == Some(TaskStatusKey(r))
  {
    match FirstKey(v)
    case Some(key) =>
      if key == "open" then Open
      else if key == "inProgress" then InProgress
      else if key == "pendingValidation" then PendingValidation
      else if key == "completed" then Completed
      else if key == "cancelled" then Cancelled
      else if key == "disputed" then Disputed
      else Open
    case None => Open
  }

  lemma ParseTaskStatusRoundTrip(s: TaskStatus, rest: seq<string>)
    ensures ParseTaskStatus(Object([TaskStatusKey(s)] + rest)) == s
  {
  }

  /** `taskStatusLabel`: a label per discriminant 0..5, `'Unknown'` for any other number. */
  function TaskStatusLabel(n: int): (r: string)
    ensures r == "Unknown" <==> TaskStatusOf(n).None?
  {
    if n == 0 then "Open"
    else if n == 1 then "In Progress"
    else if n == 2 then "Pending Validation"
    else if n == 3 then "Completed"
    else if n == 4 then "Cancelled"
    else if n == 5 then "Disputed"
    else "Unknown"
  }

  /** The key Anchor uses for each `TaskType` variant. */
  function TaskTypeKey(t: TaskType): string {
    match t
    case Exclusive => "exclusive"
    case Collaborative => "collaborative"
    case Competitive => "competitive"
  }

  /** `parseTaskType`: a known first key selects its variant; everything else is `Exclusive`. */
  function ParseTaskType(v: EnumValue): (r: TaskType)
    ensures r != Exclusive ==> FirstKey(v) == Some(TaskTypeKey(r))
  {
    match FirstKey(v)
    case Some(key) =>
      if key == "exclusive" then Exclusive
      else if key == "collaborative" then Collaborative
      else if key == "competitive" then Competitive
      else Exclusive
    case None => Exclusive
  }

  lemma ParseTaskTypeRoundTrip(t: TaskType, rest: seq<string>)
    ensures ParseTaskType(Object([TaskTypeKey(t)] + rest)) == t
  {
  }

  /** `taskTypeLabel`: a label per discriminant 0..2, `'Unknown'` for any other number. */
  function TaskTypeLabel(n: int): (r: string)
    ensures r == "Unknown" <==> TaskTypeOf(n).None?
  {
    if n == 0 then "Exclusive"
    else if n == 1 then "Collaborative"
    else if n == 2 then "Competitive"
    else "Unknown"
  }

  /** Distinct agent statuses get distinct labels (they already differ in the first letter). */
  lemma AgentStatusLabelsDistinct(n: int, m: int)
    requires 0 <= n < 4 && 0 <= m < 4 && n != m
    ensures AgentStatusLabel(n) != AgentStatusLabel(m)
  {
    assert AgentStatusLabel(n)[0] != AgentStatusLabel(m)[0];
  }

  /** Distinct task statuses get distinct labels (they already differ in the second letter). */
  lemma TaskStatusLabelsDistinct(n: int, m: int)
    requires 0 <= n < 6 && 0 <= m < 6 && n != m
    ensures TaskStatusLabel(n) != TaskStatusLabel(m)
  {
    assert TaskStatusLabel(n)[1] != TaskStatusLabel(m)[1];
  }

  /** Distinct task types get distinct labels (they already differ in the third letter). */
  lemma TaskTypeLabelsDistinct(n: int, m: int)
    requires 0 <= n < 3 && 0 <= m < 3 && n != m
    ensures TaskTypeLabel(n) != TaskTypeLabel(m)
  {
    assert TaskTypeLabel(n)[2] != TaskTypeLabel(m)[2];
  }

  /** Whatever the input, parsing and then labelling never shows `'Unknown'`. */
  lemma ParsedNeverUnknown(v: EnumValue)
    ensures AgentStatusLabel(AgentStatusValue(ParseAgentStatus(v))) != "Unknown"
    ensures TaskStatusLabel(TaskStatusValue(ParseTaskStatus(v))) != "Unknown"
    ensures TaskTypeLabel(TaskTypeValue(ParseTaskType(v))) != "Unknown"
  {
    AgentStatusValueRoundTrip(ParseAgentStatus(v));
    TaskStatusValueRoundTrip(ParseTaskStatus(v));
    TaskTypeValueRoundTrip(ParseTaskType(v));
  }

  // ---------------------------------------------------------------------
  // Capability bitmask
  // ---------------------------------------------------------------------

  /** `x & y` on `bigint`s with `y` non-negative, bit by bit from the lowest. */
  function BitAnd(x: int, y: nat): nat
    decreases y
  {
    if y == 0 then 0
    else 2 * BitAnd(x / 2, y / 2) + (if x % 2 == 1 && y % 2 == 1 then 1 else 0)
  }

  /** `x | y` on non-negative `bigint`s, bit by bit from the lowest. */
  function BitOr(x: nat, y: nat): nat
    decreases x + y
  {
    if x == 0 then y
    else if y == 0 then x
    else 2 * BitOr(x / 2, y / 2) + (if x % 2 == 1 || y % 2 == 1 then 1 else 0)
  }

  /** Masking with a single bit keeps that bit of `x` and clears everything else. */
  lemma {:induction false} BitAndPower(x: int, n: nat)
    ensures BitAnd(x, Pow2(n)) == if Bit(x, n) then Pow2(n) else 0
    decreases n
  {
    if n > 0 {
      assert Pow2(n) / 2 == Pow2(n - 1) && Pow2(n) % 2 == 0;
      BitAndPower(x / 2, n - 1);
    }
  }

  /** A bit of `x | y` is set exactly when it is set in `x` or in `y`. */
  lemma {:induction false} BitOrBits(x: nat, y: nat, i: nat)
    ensures Bit(BitOr(x, y), i) <==> Bit(x, i) || Bit(y, i)
    decreases i
  {
    if x == 0 {
      ZeroHasNoBits(i);
    } else if y == 0 {
      ZeroHasNoBits(i);
    } else if i > 0 {
      var b := if x % 2 == 1 || y % 2 == 1 then 1 else 0;
      assert BitOr(x, y) == 2 * BitOr(x / 2, y / 2) + b;
      assert BitOr(x, y) / 2 == BitOr(x / 2, y / 2);
      BitOrBits(x / 2, y / 2, i - 1);
    }
  }

  /** OR-ing a single bit into a number below it adds that bit. */
  lemma {:induction false} OrHigherBit(y: nat, k: nat)
    requires y < Pow2(k)
    ensures BitOr(y, Pow2(k)) == y + Pow2(k)
    decreases k
  {
    if y != 0 {
      assert k > 0 && Pow2(k) == 2 * Pow2(k - 1);
      OrHigherBit(y / 2, k - 1);
    }
  }

  /** The capability constants OR-ed together left to right: `0n | cs[0] | cs[1] | ...`. */
  function CapabilityOr(cs: seq<Capability>): nat {
    if cs == [] then 0 else BitOr(CapabilityOr(cs[..|cs| - 1]), Value(cs[|cs| - 1]))
  }

  /** Keys that sit at bits `0, 1, ..., n-1`, in that order, OR-ed together set exactly bits `0..n-1`. */
  lemma {:induction false} OrOfSuccessiveBits(cs: seq<Capability>)
    requires forall i :: 0 <= i < |cs| ==> Index(cs[i]) == i
    ensures CapabilityOr(cs) == Pow2(|cs|) - 1
  {
    if cs != [] {
      var k := |cs|;
      var init := cs[..k - 1];
      OrOfSuccessiveBits(init);
      var below, bit := CapabilityOr(init), Value(cs[k - 1]);
      assert below == Pow2(k - 1) - 1 && bit == Pow2(k - 1);
      OrHigherBit(below, k - 1);
      assert CapabilityOr(cs) == BitOr(below, bit) == below + bit;
    }
  }

  /**
   * The ten capability bits do not overlap, so OR-ing them together gives
   * what adding them up gives: 0x3FF, bits 0..9 set and nothing above.
   */
  lemma CapabilityOrIsLowTenBits()
    ensures CapabilityOr(AllCapabilities) == 0x3FF == CapabilityUnion(AllCapabilities)
  {
    AllCapabilitiesInOrder();
    OrOfSuccessiveBits(AllCapabilities);
    CapabilityUnionIsLowTenBits();
    assert Pow2(10) == 1024 by {
      assert Pow2(2) == 4 && Pow2(5) == 32 && Pow2(8) == 256;
    }
  }

  /** The test `(caps & value) === value` of `getCapabilityNames`. */
  predicate HasCapability(caps: int, c: Capability) {
    BitAnd(caps, Value(c)) == Value(c)
  }

  /** The test holds exactly when bit `Index(c)` of the mask is set. */
  lemma HasCapabilityIffBit(caps: int, c: Capability)
    ensures HasCapability(caps, c) <==> Bit(caps, Index(c))
  {
    BitAndPower(caps, Index(c));
  }

  /** Strictly increasing bit positions: declaration order, without repeats. */
  predicate InDeclarationOrder(cs: seq<Capability>) {
    forall i, j :: 0 <= i < j < |cs| ==> Index(cs[i]) < Index(cs[j])
  }

  /** The entries of `cs` whose bit is set in `caps`, in the order of `cs`. */
  function SetCapabilities(caps: int, cs: seq<Capability>): (r: seq<Capability>)
    ensures |r| <= |cs|
    ensures forall c :: c in r <==> c in cs && HasCapability(caps, c)
  {
    if cs == [] then []
    else
      var last := cs[|cs| - 1];
      SetCapabilities(caps, cs[..|cs| - 1]) + (if HasCapability(caps, last) then [last] else [])
  }

  /** Filtering keeps the order of the list it filters. */
  lemma {:induction false} SetCapabilitiesInOrder(caps: int, cs: seq<Capability>)
    requires InDeclarationOrder(cs)
    ensures InDeclarationOrder(SetCapabilities(caps, cs))
  {
    if cs != [] {
      var init := cs[..|cs| - 1];
      var last := cs[|cs| - 1];
      SetCapabilitiesInOrder(caps, init);
      var r := SetCapabilities(caps, init);
      forall c | c in r
        ensures Index(c) < Index(last)
      {
        var k :| 0 <= k < |init| && init[k] == c;
        assert cs[k] == c;
      }
    }
  }

  /** What `getCapabilityNames(caps)` returns. */
  function CapabilityNamesOf(caps: int): seq<Capability> {
    SetCapabilities(caps, AllCapabilities)
  }

  /**
   * `getCapabilityNames`: walks the `Capability` table in declaration order
   * and collects every key whose bit is set.
   */
  method GetCapabilityNames(caps: int) returns (names: seq<Capability>)
    ensures names == CapabilityNamesOf(caps)
  {
    names := [];
    for i := 0 to |AllCapabilities|
      invariant names == SetCapabilities(caps, AllCapabilities[..i])
    {
      var c := AllCapabilities[i];
      if BitAnd(caps, Value(c)) == Value(c) {
        names := names + [c];
      }
      assert AllCapabilities[..i + 1][..i] == AllCapabilities[..i];
    }
    assert AllCapabilities[..|AllCapabilities|] == AllCapabilities;
  }

  /**
   * The decoded names are exactly the capabilities whose bit is set, in
   * declaration order, each at most once, and so at most ten of them.
   */
  lemma CapabilityNamesExact(caps: int)
    ensures forall c :: c in CapabilityNamesOf(caps) <==> Bit(caps, Index(c))
    ensures InDeclarationOrder(CapabilityNamesOf(caps))
    ensures |CapabilityNamesOf(caps)| <= 10
  {
    AllCapabilitiesInOrder();
    SetCapabilitiesInOrder(caps, AllCapabilities);
    forall c
      ensures c in CapabilityNamesOf(caps) <==> Bit(caps, Index(c))
    {
      HasCapabilityIffBit(caps, c);
      assert c in AllCapabilities by {
        assert AllCapabilities[Index(c)] == c;
      }
    }
  }

  /** Two masks that agree on bits 0..9 decode to the same names: higher bits are ignored. */
  lemma {:induction false} HighBitsIgnored(x: int, y: int, cs: seq<Capability>)
    requires forall i: nat :: i < 10 ==> (Bit(x, i) <==> Bit(y, i))
    ensures SetCapabilities(x, cs) == SetCapabilities(y, cs)
  {
    if cs != [] {
      var last := cs[|cs| - 1];
      HasCapabilityIffBit(x, last);
      HasCapabilityIffBit(y, last);
      HighBitsIgnored(x, y, cs[..|cs| - 1]);
    }
  }

  /** `formatCapabilities`: the display label of each decoded name, in the same order. */
  function FormatCapabilities(caps: int): (r: seq<string>)
    ensures |r| == |CapabilityNamesOf(caps)| <= 10
    ensures forall i :: 0 <= i < |r| ==> r[i] == Label(CapabilityNamesOf(caps)[i])
  {
    var names := CapabilityNamesOf(caps);
    seq(|names|, i requires 0 <= i < |names| => Label(names[i]))
  }

  /**
   * The registration form's mask: starting from `0n`, every selected
   * capability is OR-ed in (the form keeps the selection as a set, so the
   * visiting order is not fixed).
   */
  method CombineCapabilities(selected: set<Capability>) returns (caps: nat)
    ensures forall c :: Bit(caps, Index(c)) <==> c in selected
    ensures forall i: nat :: 10 <= i ==> !Bit(caps, i)
  {
    caps := 0;
    forall i: nat
      ensures !Bit(caps, i)
    {
      ZeroHasNoBits(i);
    }
    var remaining := selected;
    while remaining != {}
      invariant remaining <= selected
      invariant forall c :: Bit(caps, Index(c)) <==> c in selected - remaining
      invariant forall i: nat :: 10 <= i ==> !Bit(caps, i)
      decreases |remaining|
    {
      var c :| c in remaining;
      var next := BitOr(caps, Value(c));
      forall i: nat
        ensures Bit(next, i) <==> Bit(caps, i) || i == Index(c)
      {
        BitOrBits(caps, Value(c), i);
        CapabilityBits(c, c);
      }
      forall d
        ensures Bit(next, Index(d)) <==> d in selected - (remaining - {c})
      {
        assert Index(d) == Index(c) <==> d == c;
      }
      caps := next;
      remaining := remaining - {c};
    }
  }

  /**
   * Round trip of the registration form: a mask whose bits are exactly the
   * selected capabilities, as `CombineCapabilities` builds it, decodes to
   * exactly that selection, listed in declaration order.
   */
  lemma CapabilityRoundTrip(selected: set<Capability>, caps: int)
    requires forall c :: Bit(caps, Index(c)) <==> c in selected
    ensures forall c :: c in CapabilityNamesOf(caps) <==> c in selected
    ensures InDeclarationOrder(CapabilityNamesOf(caps))
    ensures |CapabilityNamesOf(caps)| == |selected|
  {
    CapabilityNamesExact(caps);
    var names := CapabilityNamesOf(caps);
    DistinctCardinality(names);
    assert (set c | c in names) == selected;
  }

  /** A list in declaration order has no repeats, so it is as long as the set of its entries. */
  lemma {:induction false} DistinctCardinality(cs: seq<Capability>)
    requires InDeclarationOrder(cs)
    ensures |set c | c in cs| == |cs|
  {
    if cs != [] {
      var init := cs[..|cs| - 1];
      var last := cs[|cs| - 1];
      assert InDeclarationOrder(init);
      DistinctCardinality(init);
      assert cs == init + [last];
      assert last !in init;
      assert (set c | c in cs) == (set c | c in init) + {last};
    }
  }

  // ---------------------------------------------------------------------
  // String helpers
  // ---------------------------------------------------------------------

  function Min(a: nat, b: nat): nat {
    if a < b then a else b
  }

  /** `formatAgentId`: the lower-case hex of the first (at most) eight bytes of the id. */
  function FormatAgentId(agentId: seq<Byte>): (r: string)
    ensures |r| == 2 * Min(8, |agentId|)
    ensures HexToBytes(r) == Some(agentId[..Min(8, |agentId|)])
  {
    var shown := agentId[..Min(8, |agentId|)];
    HashToHexLength(shown);
    HexRoundTrip(shown);
    HashToHex(shown)
  }

  /**
   * `shortenAddress`: `address.slice(0, 4) + "..." + address.slice(-4)`.
   * On an address shorter than four characters both slices are the whole
   * address.
   */
  function ShortenAddress(address: string): (r: string)
    ensures var k := Min(4, |address|);
      && |r| == 2 * k + 3
      && r[..k] == address[..k]
      && r[k..k + 3] == "..."
      && r[k + 3..] == address[|address| - k..]
    ensures |address| >= 4 ==> |r| == 11
  {
    var k := Min(4, |address|);
    address[..k] + "..." + address[|address| - k..]
  }
}
