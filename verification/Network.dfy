/** Address allocation: pkg/network/manager.go (IPv4) and pkg/network/ipv6.go. */
module Network {
  import opened Sets
  import opened Text

  type Byte = x: int | 0 <= x < 256

  datatype IP4 = IP4(a: Byte, b: Byte, c: Byte, d: Byte)

  function Dot(byte: Byte, rest: string): string {
    Numeral(byte) + ['.'] + rest
  }

  /** net.IP.String of an IPv4 address. */
  function Dotted(ip: IP4): string {
    Dot(ip.a, Dot(ip.b, Dot(ip.c, Numeral(ip.d))))
  }

  lemma DotInjective(a: Byte, b: Byte, x: string, y: string)
    requires Dot(a, x) == Dot(b, y)
    ensures a == b && x == y
  {
    CutAtFirst(Numeral(a), Numeral(b), '.', x, y);
    NumeralInjective(a, b);
  }

  /** Dotted-decimal texts differ for different addresses. */
  lemma DottedInjective(x: IP4, y: IP4)
    requires Dotted(x) == Dotted(y)
    ensures x == y
  {
    DotInjective(x.a, y.a, Dot(x.b, Dot(x.c, Numeral(x.d))), Dot(y.b, Dot(y.c, Numeral(y.d))));
    DotInjective(x.b, y.b, Dot(x.c, Numeral(x.d)), Dot(y.c, Numeral(y.d)));
    DotInjective(x.c, y.c, Numeral(x.d), Numeral(y.d));
    NumeralInjective(x.d, y.d);
  }

  /** What net.ParseCIDR makes of the configured subnet. */
  datatype Subnet = Unparsable | NotIPv4 | IPv4Net(base: IP4, prefix: nat)

  /** The network state file. `gateway` is the printed form of the parsed gateway. */
  datatype NetworkState = NetworkState(subnet: Subnet, gateway: string, allocations: map<string, string>)

  datatype Allocation = Allocated(ip: string) | Failed

  function Candidate(base: IP4, i: Byte): string {
    Dotted(IP4(base.a, base.b, base.c, i))
  }

  /** The text of a candidate: the first three bytes of the subnet, and the number of the step. */
  lemma CandidateText(base: IP4, i: Byte)
    ensures Candidate(base, i)
         == Numeral(base.a) + "." + Numeral(base.b) + "." + Numeral(base.c) + "." + Numeral(i)
  {
  }

  predicate Taken(state: NetworkState, ip: string) {
    ip == state.gateway || ip in state.allocations.Values
  }

  /** The last bytes that the allocator tries, in this order. */
  const FIRST: Byte := 2
  const LIMIT: Byte := 254

  function FirstFree(state: NetworkState, base: IP4, i: Byte): Allocation
    requires i <= LIMIT
    decreases LIMIT - i
  {
    if i == LIMIT then Failed
    else if !Taken(state, Candidate(base, i)) then Allocated(Candidate(base, i))
    else FirstFree(state, base, i + 1)
  }

  function Allocate(state: NetworkState): Allocation {
    if state.subnet.IPv4Net? then FirstFree(state, state.subnet.base, FIRST) else Failed
  }

  method AllocateIP(state: NetworkState) returns (result: Allocation)
    ensures result == Allocate(state)
    ensures result == if state.subnet.IPv4Net? then FirstFree(state, state.subnet.base, FIRST) else Failed
  {
    if !state.subnet.IPv4Net? {
      return Failed;
    }
    var used := map[state.gateway := true];
    var rest := state.allocations.Keys;
    while rest != {}
      invariant rest <= state.allocations.Keys
      invariant forall ip :: ip in used <==>
                  ip == state.gateway || exists c :: c in state.allocations && c !in rest && state.allocations[c] == ip
      decreases rest
    {
      var c :| c in rest;
      rest := rest - {c};
      used := used[state.allocations[c] := true];
    }
    assert forall ip :: ip in used <==> Taken(state, ip);
    var ip := state.subnet.base;
    var i: int := 2;
    while i < 254
      invariant 2 <= i <= 254
      invariant FirstFree(state, state.subnet.base, FIRST) == FirstFree(state, state.subnet.base, i)
      invariant (ip.a, ip.b, ip.c) == (state.subnet.base.a, state.subnet.base.b, state.subnet.base.c)
    {
      ip := ip.(d := i);
      var ipStr := Dotted(ip);
      if ipStr !in used {
        return Allocated(ipStr);
      }
      i := i + 1;
    }
    return Failed;
  }

  /** First fit: the lowest free candidate, and a failure exactly when every candidate is taken. */
  lemma {:induction false} FirstFreeIsLowest(state: NetworkState, base: IP4, i: Byte)
    requires i <= LIMIT
    ensures FirstFree(state, base, i).Failed? <==> forall j: Byte | i <= j < LIMIT :: Taken(state, Candidate(base, j))
    ensures FirstFree(state, base, i).Allocated? ==>
              exists j: Byte :: i <= j < LIMIT && FirstFree(state, base, i).ip == Candidate(base, j)
                && !Taken(state, Candidate(base, j))
                && forall k: Byte | i <= k < j :: Taken(state, Candidate(base, k))
    decreases LIMIT - i
  {
    if i < LIMIT && Taken(state, Candidate(base, i)) {
      FirstFreeIsLowest(state, base, i + 1);
      if FirstFree(state, base, i).Allocated? {
        var j: Byte :| i + 1 <= j < LIMIT && FirstFree(state, base, i + 1).ip == Candidate(base, j)
                       && !Taken(state, Candidate(base, j))
                       && forall k: Byte | i + 1 <= k < j :: Taken(state, Candidate(base, k));
        assert forall k: Byte | i <= k < j :: Taken(state, Candidate(base, k));
      }
    }
  }

  /** One use of a manager. A tap device that cannot be made ends CreateTap before any allocation. */
  datatype Operation = CreateTap(container: string, tapMade: bool) | ReleaseIP(container: string)

  function Step(state: NetworkState, op: Operation): NetworkState {
    match op
    case CreateTap(container, tapMade) =>
      var result := if tapMade then Allocate(state) else Failed;
      if result.Failed? then state
      else state.(allocations := state.allocations[container := result.ip])
    case ReleaseIP(container) => state.(allocations := state.allocations - {container})
  }

  /** What an operation returns. */
  function Returned(state: NetworkState, op: Operation): Allocation {
    if op.CreateTap? && op.tapMade then Allocate(state) else Failed
  }

  function Run(state: NetworkState, ops: seq<Operation>): NetworkState {
    if ops == [] then state else Step(Run(state, ops[..|ops| - 1]), ops[|ops| - 1])
  }

  /** The manager: every operation holds its lock from reading the state to writing it. */
  class Manager {
    var state: NetworkState

    constructor (subnet: Subnet, gateway: string)
      ensures state == NetworkState(subnet, gateway, map[])
    {
      state := NetworkState(subnet, gateway, map[]);
    }

    method CreateTap(container: string, tapMade: bool) returns (result: Allocation)
      modifies this
      ensures state == Step(old(state), Operation.CreateTap(container, tapMade))
      ensures result == if tapMade then Allocate(old(state)) else Failed
      ensures result.Allocated? ==>
                && state.allocations == old(state.allocations)[container := result.ip]
                && state.subnet == old(state.subnet) && state.gateway == old(state.gateway)
                && result.ip !in old(state.allocations).Values && result.ip != state.gateway
      ensures result.Failed? ==> state == old(state)
    {
      if !tapMade {
        return Failed;
      }
      result := AllocateIP(state);
      if result.Allocated? {
        FirstFreeIsLowest(state, state.subnet.base, FIRST);
      }
      if result.Failed? {
        return;
      }
      state := state.(allocations := state.allocations[container := result.ip]);
    }

    method ReleaseIP(container: string)
      modifies this
      ensures state == Step(old(state), Operation.ReleaseIP(container))
      ensures state == old(state).(allocations := state.allocations)
      ensures state.allocations.Keys == old(state.allocations).Keys - {container}
      ensures forall c | c in state.allocations :: state.allocations[c] == old(state.allocations)[c]
    {
      state := state.(allocations := state.allocations - {container});
    }
  }

  predicate IsCandidate(base: IP4, ip: string) {
    exists i: Byte :: FIRST <= i < LIMIT && ip == Candidate(base, i)
  }

  /** No two containers share an address, none has the gateway's, and all are candidates: their last
      bytes lie between 2 and 253 and the other bytes are those of the subnet. */
  predicate Good(state: NetworkState) {
    && state.subnet.IPv4Net?
    && (forall c | c in state.allocations :: IsCandidate(state.subnet.base, state.allocations[c]))
    && (forall c | c in state.allocations :: state.allocations[c] != state.gateway)
    && (forall c, d | c in state.allocations && d in state.allocations && c != d ::
          state.allocations[c] != state.allocations[d])
  }

  lemma StepKeepsGood(state: NetworkState, op: Operation)
    requires Good(state)
    ensures Good(Step(state, op))
  {
    if op.CreateTap? && op.tapMade && Allocate(state).Allocated? {
      var base := state.subnet.base;
      FirstFreeIsLowest(state, base, FIRST);
      var j: Byte :| FIRST <= j < LIMIT && Allocate(state).ip == Candidate(base, j)
                     && !Taken(state, Candidate(base, j));
      assert forall c | c in state.allocations :: state.allocations[c] in state.allocations.Values;
    }
  }

  /** Uniqueness, distance from the gateway and the candidate range hold over every run. */
  lemma {:induction false} RunsStayGood(state: NetworkState, ops: seq<Operation>)
    requires Good(state)
    ensures Good(Run(state, ops)) && Run(state, ops).subnet == state.subnet && Run(state, ops).gateway == state.gateway
  {
    if ops != [] {
      RunsStayGood(state, ops[..|ops| - 1]);
      StepKeepsGood(Run(state, ops[..|ops| - 1]), ops[|ops| - 1]);
    }
  }

  lemma NextRun(state: NetworkState, ops: seq<Operation>, n: nat)
    requires n < |ops|
    ensures Run(state, ops[..n + 1]) == Step(Run(state, ops[..n]), ops[n])
  {
    assert ops[..n + 1][..n] == ops[..n];
  }

  lemma AllocatedIsFree(state: NetworkState)
    ensures Allocate(state).Allocated? ==> !Taken(state, Allocate(state).ip)
  {
    if state.subnet.IPv4Net? {
      FirstFreeIsLowest(state, state.subnet.base, FIRST);
    }
  }

  /** The operation leaves the address of the container alone: it does not release it, and does not give the
      container another one. */
  predicate LeavesAlone(state: NetworkState, op: Operation, container: string) {
    op.container == container ==> op.CreateTap? && Returned(state, op).Failed?
  }

  lemma StepHolds(state: NetworkState, op: Operation, container: string, ip: string)
    requires container in state.allocations && state.allocations[container] == ip
    requires LeavesAlone(state, op, container)
    ensures var next := Step(state, op); container in next.allocations && next.allocations[container] == ip
  {
  }

  lemma StepGives(state: NetworkState, op: Operation)
    requires Returned(state, op).Allocated?
    ensures var next := Step(state, op);
            op.container in next.allocations && next.allocations[op.container] == Returned(state, op).ip
  {
  }

  /** From when a container gets an address, it holds this very address until it is released or gets another
      one. */
  lemma {:induction false} HoldsOn(state: NetworkState, ops: seq<Operation>, n: nat, m: nat, c: string, ip: string)
    requires n < m <= |ops| && ops[n].container == c && Returned(Run(state, ops[..n]), ops[n]) == Allocated(ip)
    requires forall k: nat | n < k < m :: LeavesAlone(Run(state, ops[..k]), ops[k], c)
    ensures c in Run(state, ops[..m]).allocations && Run(state, ops[..m]).allocations[c] == ip
    decreases m
  {
    NextRun(state, ops, m - 1);
    if m - 1 > n {
      HoldsOn(state, ops, n, m - 1, c, ip);
      StepHolds(Run(state, ops[..m - 1]), ops[m - 1], c, ip);
    } else {
      StepGives(Run(state, ops[..n]), ops[n]);
    }
  }

  /** Over every run, whatever it starts from: two containers never get the same address, unless the first one
      was released or got another address in between. */
  lemma AddressesDiffer(state: NetworkState, ops: seq<Operation>, n: nat, m: nat)
    requires n < m < |ops|
    requires Returned(Run(state, ops[..n]), ops[n]).Allocated? && Returned(Run(state, ops[..m]), ops[m]).Allocated?
    requires forall k: nat | n < k < m :: LeavesAlone(Run(state, ops[..k]), ops[k], ops[n].container)
    ensures Returned(Run(state, ops[..n]), ops[n]).ip != Returned(Run(state, ops[..m]), ops[m]).ip
  {
    HoldsOn(state, ops, n, m, ops[n].container, Returned(Run(state, ops[..n]), ops[n]).ip);
    AllocatedIsFree(Run(state, ops[..m]));
    var end := Run(state, ops[..m]);
    assert end.allocations[ops[n].container] in end.allocations.Values;
  }

  function Candidates(base: IP4, n: int): set<string>
    requires FIRST <= n <= LIMIT
  {
    set i: Byte | FIRST <= i < n :: Candidate(base, i)
  }

  lemma {:induction false} CandidateCount(base: IP4, n: int)
    requires FIRST <= n <= LIMIT
    ensures |Candidates(base, n)| == n - FIRST
    decreases n
  {
    if n == FIRST {
      assert Candidates(base, n) == {};
    } else {
      CandidateCount(base, n - 1);
      assert Candidates(base, n) == Candidates(base, n - 1) + {Candidate(base, n - 1)};
      forall i: Byte | FIRST <= i < n - 1 ensures Candidate(base, i) != Candidate(base, n - 1) {
        if Candidate(base, i) == Candidate(base, n - 1) {
          DottedInjective(IP4(base.a, base.b, base.c, i), IP4(base.a, base.b, base.c, n - 1));
        }
      }
    }
  }

  lemma ValuesWithout(m: map<string, string>, c: string)
    requires c in m
    requires forall d | d in m && d != c :: m[d] != m[c]
    ensures (m - {c}).Values == m.Values - {m[c]}
  {
    var rest := m - {c};
    forall v | v in m.Values - {m[c]} ensures v in rest.Values {
      var d :| d in m && m[d] == v;
      assert d in rest && rest[d] == v;
    }
    forall v | v in rest.Values ensures v in m.Values - {m[c]} {
      var d :| d in rest && rest[d] == v;
      assert d in m && m[d] == v;
    }
  }

  lemma {:induction false} InjectiveValues(m: map<string, string>)
    requires forall c, d | c in m && d in m && c != d :: m[c] != m[d]
    ensures |m.Values| == |m|
    decreases |m|
  {
    if m == map[] {
      assert m.Values == {};
    } else {
      var c :| c in m;
      InjectiveValues(m - {c});
      ValuesWithout(m, c);
      assert m[c] in m.Values;
      assert m.Keys == (m - {c}).Keys + {c};
    }
  }

  lemma HoldersAreUsable(state: NetworkState)
    requires Good(state)
    ensures state.allocations.Values <= Candidates(state.subnet.base, LIMIT) - {state.gateway}
  {
    forall v | v in state.allocations.Values ensures v in Candidates(state.subnet.base, LIMIT) {
      var c :| c in state.allocations && state.allocations[c] == v;
      assert IsCandidate(state.subnet.base, state.allocations[c]);
    }
  }

  /** Allocation fails exactly when the containers hold every candidate but the gateway. */
  lemma FailsWhenNoneIsLeft(state: NetworkState)
    requires Good(state)
    ensures Allocate(state).Failed? <==>
              Candidates(state.subnet.base, LIMIT) - {state.gateway} <= state.allocations.Values
  {
    var base := state.subnet.base;
    var usable := Candidates(base, LIMIT) - {state.gateway};
    FirstFreeIsLowest(state, base, FIRST);
    if Allocate(state).Failed? {
      forall v | v in usable ensures v in state.allocations.Values {
        var j: Byte :| FIRST <= j < LIMIT && v == Candidate(base, j);
        assert Taken(state, Candidate(base, j));
      }
    } else {
      var j: Byte :| FIRST <= j < LIMIT && !Taken(state, Candidate(base, j));
      assert Candidate(base, j) in usable;
    }
  }

  /** Exact capacity: in every reachable state, allocation fails if and only if containers hold all 252
      candidates, or 251 when the gateway is one of them. */
  lemma FailsExactlyWhenFull(state: NetworkState)
    requires Good(state)
    ensures Allocate(state).Failed? <==>
              |state.allocations| == if IsCandidate(state.subnet.base, state.gateway) then 251 else 252
  {
    var all := Candidates(state.subnet.base, LIMIT);
    CandidateCount(state.subnet.base, LIMIT);
    assert IsCandidate(state.subnet.base, state.gateway) <==> state.gateway in all;
    InjectiveValues(state.allocations);
    HoldersAreUsable(state);
    FailsWhenNoneIsLeft(state);
    SubsetSize(state.allocations.Values, all - {state.gateway});
  }

  function Pow2(n: nat): (p: nat)
    ensures p > 0
  {
    if n == 0 then 1 else 2 * Pow2(n - 1)
  }

  lemma {:induction false} Pow2Splits(m: nat, n: nat)
    ensures Pow2(m + n) == Pow2(m) * Pow2(n)
  {
    if m != 0 {
      Pow2Splits(m - 1, n);
    }
  }

  lemma {:induction false} Pow2Grows(m: nat, n: nat)
    requires m <= n
    ensures Pow2(m) <= Pow2(n)
    decreases n - m
  {
    if m < n {
      Pow2Grows(m + 1, n);
    }
  }

  lemma Powers()
    ensures Pow2(7) == 128 && Pow2(8) == 256 && Pow2(15) == 32768 && Pow2(16) == 65536
  {
    assert Pow2(3) == 8;
    assert Pow2(5) == 32;
    assert Pow2(10) == 1024;
    assert Pow2(13) == 8192;
  }

  /** Two numbers have the same leading bits, when all but `bits` trailing bits are looked at. */
  predicate SameBlock(x: nat, y: nat, bits: nat) {
    x / Pow2(bits) == y / Pow2(bits)
  }

  lemma AtLeastOnce(d: nat, k: nat)
    requires k > 0
    ensures d * k >= d
  {
  }

  lemma QuotientIsUnique(d: nat, q: nat, r: nat, k: nat, s: nat)
    requires r < d && s < d && d * q + r == d * k + s
    ensures q == k
  {
    assert d * (k - q) == d * k - d * q == r - s;
    if q < k {
      AtLeastOnce(d, k - q);
    } else if k < q {
      AtLeastOnce(d, q - k);
    }
  }

  lemma QuotientOfQuotient(x: nat, a: nat, b: nat, c: nat, y: nat, r: nat, q: nat, s: nat, k: nat, t: nat)
    requires x == a * y + r && r < a
    requires y == b * q + s && s < b
    requires c == a * b && x == c * k + t && t < c
    ensures k == q
  {
    AtLeastOnce(a, b - s);
    assert a * (b - s) == a * b - a * s;
    assert a * (b * q + s) == (a * b) * q + a * s;
    QuotientIsUnique(c, k, t, q, a * s + r);
  }

  lemma Quotient(x: nat, d: nat) returns (q: nat, r: nat)
    requires d > 0
    ensures q == x / d && x == d * q + r && r < d
  {
    q, r := x / d, x % d;
  }

  lemma DivideTwice(x: nat, a: nat, b: nat, c: nat)
    requires a > 0 && b > 0 && c > 0 && c == a * b
    ensures x / c == (x / a) / b
  {
    var y, r := Quotient(x, a);
    var q, s := Quotient(y, b);
    var k, t := Quotient(x, c);
    QuotientOfQuotient(x, a, b, c, y, r, q, s, k, t);
  }

  /** Numbers that agree above their lowest `low` bits share every block of at least that size. */
  lemma SameAbove(x: nat, y: nat, low: nat, bits: nat)
    requires low <= bits && SameBlock(x, y, low)
    ensures SameBlock(x, y, bits)
  {
    Pow2Splits(low, bits - low);
    DivideTwice(x, Pow2(low), Pow2(bits - low), Pow2(bits));
    DivideTwice(y, Pow2(low), Pow2(bits - low), Pow2(bits));
  }

  lemma BlockIsShort(x: nat, y: nat, bits: nat)
    requires SameBlock(x, y, bits)
    ensures x - y < Pow2(bits)
  {
    var p := Pow2(bits);
    assert x == p * (x / p) + x % p && y == p * (y / p) + y % p;
  }

  /** An address as a 32-bit number. */
  function AsNumber(ip: IP4): nat {
    ((ip.a * 256 + ip.b) * 256 + ip.c) * 256 + ip.d
  }

  /** Membership in a block in the sense of section 3.1 of RFC 4632: the leading `prefix` bits agree. */
  predicate InSubnet(ip: IP4, base: IP4, prefix: nat)
    requires prefix <= 32
  {
    SameBlock(AsNumber(ip), AsNumber(base), 32 - prefix)
  }

  /** The candidates all lie in the subnet if and only if its prefix is at most 24 bits long. */
  lemma CandidatesInSubnet(base: IP4, prefix: nat)
    requires prefix <= 32
    ensures (forall i: Byte | FIRST <= i < LIMIT :: InSubnet(base.(d := i), base, prefix)) <==> prefix <= 24
  {
    Powers();
    if prefix <= 24 {
      forall i: Byte | FIRST <= i < LIMIT ensures InSubnet(base.(d := i), base, prefix) {
        SameAbove(AsNumber(base.(d := i)), AsNumber(base), 8, 32 - prefix);
      }
    } else if forall i: Byte | FIRST <= i < LIMIT :: InSubnet(base.(d := i), base, prefix) {
      assert InSubnet(base.(d := 253), base, prefix) && InSubnet(base.(d := 2), base, prefix);
      BlockIsShort(AsNumber(base.(d := 253)), AsNumber(base.(d := 2)), 32 - prefix);
      Pow2Grows(32 - prefix, 7);
      assert false;
    }
  }

  /** Over every run in a subnet with a prefix of at most 24 bits, each address that a container holds is
      the printed form of an address of the subnet. */
  lemma HeldAddressesInSubnet(state: NetworkState, ops: seq<Operation>, c: string)
    requires Good(state) && state.subnet.prefix <= 24
    requires c in Run(state, ops).allocations
    ensures exists ip :: Run(state, ops).allocations[c] == Dotted(ip)
                           && InSubnet(ip, state.subnet.base, state.subnet.prefix)
  {
    var base := state.subnet.base;
    RunsStayGood(state, ops);
    assert IsCandidate(base, Run(state, ops).allocations[c]);
    var i: Byte :| FIRST <= i < LIMIT && Run(state, ops).allocations[c] == Candidate(base, i);
    CandidatesInSubnet(base, state.subnet.prefix);
    assert InSubnet(base.(d := i), base, state.subnet.prefix);
  }

  /** An IPv6 address: its leading 14 bytes as one number, then the two bytes that are overwritten. */
  datatype IP6 = IP6(high: nat, b14: Byte, b15: Byte)

  /** What net.ParseCIDR makes of the IPv6 subnet; the prefix counts bits of the 16-byte form. */
  datatype Subnet6 = BadSubnet | Net(base: IP6, prefix: nat)

  /** The address of step `i` of the loop. */
  function Candidate6(base: IP6, i: nat): IP6
    requires i < 65536
  {
    base.(b14 := i / 256, b15 := i % 256)
  }

  /** The steps whose last byte is neither 0 nor 1. */
  predicate Tried(i: nat) {
    i < 65535 && i % 256 >= 2
  }

  const STEPS := 65535

  function FirstFree6(base: IP6, show: IP6 -> string, used: map<string, bool>, i: nat): Allocation
    requires i <= STEPS
    decreases STEPS - i
  {
    if i == STEPS then Failed
    else
      var text := show(Candidate6(base, i));
      if Tried(i) && !(text in used && used[text]) then Allocated(text)
      else FirstFree6(base, show, used, i + 1)
  }

  function Allocate6(subnet: Subnet6, show: IP6 -> string, used: map<string, bool>): Allocation {
    if subnet.Net? then FirstFree6(subnet.base, show, used, 0) else Failed
  }

  method AllocateIPv6(subnet: Subnet6, show: IP6 -> string, used: map<string, bool>) returns (result: Allocation)
    ensures result == Allocate6(subnet, show, used)
    ensures result == if subnet.BadSubnet? then Failed else FirstFree6(subnet.base, show, used, 0)
  {
    if subnet.BadSubnet? {
      return Failed;
    }
    var ip := subnet.base;
    var i: int := 0;
    while i < 65535
      invariant 0 <= i <= 65535
      invariant ip.high == subnet.base.high
      invariant Allocate6(subnet, show, used) == FirstFree6(subnet.base, show, used, i)
    {
      ip := ip.(b14 := i / 256);
      ip := ip.(b15 := i % 256);
      if ip.b15 == 0 || ip.b15 == 1 {
        i := i + 1;
        continue;
      }
      var ipStr := show(ip);
      if !(ipStr in used && used[ipStr]) {
        return Allocated(ipStr);
      }
      i := i + 1;
    }
    return Failed;
  }

  predicate Used6(base: IP6, show: IP6 -> string, used: map<string, bool>, i: nat)
    requires i < 65536
  {
    var text := show(Candidate6(base, i));
    text in used && used[text]
  }

  /** First fit: the first unused candidate, and a failure exactly when every candidate is used. */
  lemma {:induction false} FirstFree6IsLowest(base: IP6, show: IP6 -> string, used: map<string, bool>, i: nat)
    requires i <= STEPS
    ensures FirstFree6(base, show, used, i).Failed? <==>
              forall j: nat | i <= j < STEPS && Tried(j) :: Used6(base, show, used, j)
    ensures FirstFree6(base, show, used, i).Allocated? ==>
              exists j: nat :: i <= j < STEPS && Tried(j) && !Used6(base, show, used, j)
                && FirstFree6(base, show, used, i).ip == show(Candidate6(base, j))
                && forall k: nat | i <= k < j && Tried(k) :: Used6(base, show, used, k)
    decreases STEPS - i
  {
    if i < STEPS {
      FirstFree6IsLowest(base, show, used, i + 1);
      if (!Tried(i) || Used6(base, show, used, i)) && FirstFree6(base, show, used, i + 1).Allocated? {
        var j: nat :| i + 1 <= j < STEPS && Tried(j) && !Used6(base, show, used, j)
                      && FirstFree6(base, show, used, i + 1).ip == show(Candidate6(base, j))
                      && forall k: nat | i + 1 <= k < j && Tried(k) :: Used6(base, show, used, k);
        assert forall k: nat | i <= k < j && Tried(k) :: Used6(base, show, used, k);
      }
    }
  }

  /** The addresses of the steps before `n`. */
  function Candidates6(base: IP6, n: nat): set<IP6>
    requires n <= STEPS
  {
    set i: nat | i < n && Tried(i) :: Candidate6(base, i)
  }

  function CountTried(n: nat): nat {
    254 * (n / 256) + if n % 256 > 2 then n % 256 - 2 else 0
  }

  lemma CountStep(n: nat)
    requires n < STEPS
    ensures CountTried(n + 1) == CountTried(n) + if Tried(n) then 1 else 0
  {
    var q, r := n / 256, n % 256;
    assert n == 256 * q + r;
    if r == 255 {
      assert n + 1 == 256 * (q + 1);
    } else {
      assert (n + 1) / 256 == q && (n + 1) % 256 == r + 1;
    }
  }

  /** The tried addresses are pairwise different, so all 65535 steps try 65023 addresses. */
  lemma {:induction false} CandidateCount6(base: IP6, n: nat)
    requires n <= STEPS
    ensures |Candidates6(base, n)| == CountTried(n)
    ensures n == STEPS ==> |Candidates6(base, n)| == 65023
    ensures forall a | a in Candidates6(base, n) :: a.b15 != 0 && a.b15 != 1 && a.high == base.high
    decreases n
  {
    if n == 0 {
      assert Candidates6(base, n) == {};
    } else {
      var i := n - 1;
      CandidateCount6(base, i);
      CountStep(i);
      if Tried(i) {
        assert Candidates6(base, n) == Candidates6(base, i) + {Candidate6(base, i)};
        assert forall j: nat | j < i :: Candidate6(base, j) != Candidate6(base, i);
      } else {
        assert Candidates6(base, n) == Candidates6(base, i);
      }
    }
  }

  function AsNumber6(ip: IP6): nat {
    ip.high * 65536 + (ip.b14 * 256 + ip.b15)
  }

  /** The address of a step is the 14 leading bytes of the subnet followed by the number of the step. */
  lemma CandidateNumber6(base: IP6, i: nat)
    requires i < 65536
    ensures AsNumber6(Candidate6(base, i)) == base.high * 65536 + i
  {
  }

  predicate InSubnet6(ip: IP6, base: IP6, prefix: nat)
    requires prefix <= 128
  {
    SameBlock(AsNumber6(ip), AsNumber6(base), 128 - prefix)
  }

  lemma LongPrefixTooSmall(base: IP6, prefix: nat)
    requires 112 < prefix <= 128
    ensures !InSubnet6(Candidate6(base, 65534), base, prefix) || !InSubnet6(Candidate6(base, 2), base, prefix)
  {
    Powers();
    Pow2Grows(128 - prefix, 15);
    if SameBlock(AsNumber6(Candidate6(base, 65534)), AsNumber6(Candidate6(base, 2)), 128 - prefix) {
      BlockIsShort(AsNumber6(Candidate6(base, 65534)), AsNumber6(Candidate6(base, 2)), 128 - prefix);
    }
  }

  lemma HighPart(high: nat, low: nat)
    requires low < 65536
    ensures (high * 65536 + low) / 65536 == high
  {
  }

  lemma SameHighPart(base: IP6, i: nat)
    requires i < 65536
    ensures SameBlock(AsNumber6(Candidate6(base, i)), AsNumber6(base), 16)
  {
    Powers();
    HighPart(base.high, (i / 256) * 256 + i % 256);
    HighPart(base.high, base.b14 * 256 + base.b15);
  }

  lemma ShortPrefixLargeEnough(base: IP6, prefix: nat, i: nat)
    requires prefix <= 112 && i < 65536
    ensures InSubnet6(Candidate6(base, i), base, prefix)
  {
    SameHighPart(base, i);
    SameAbove(AsNumber6(Candidate6(base, i)), AsNumber6(base), 16, 128 - prefix);
  }

  /** The candidates all lie in the subnet if and only if its prefix is at most 112 bits long. */
  lemma CandidatesInSubnet6(base: IP6, prefix: nat)
    requires prefix <= 128
    ensures (forall i: nat | Tried(i) :: InSubnet6(Candidate6(base, i), base, prefix)) <==> prefix <= 112
  {
    if prefix <= 112 {
      forall i: nat | Tried(i) ensures InSubnet6(Candidate6(base, i), base, prefix) {
        ShortPrefixLargeEnough(base, prefix, i);
      }
    } else {
      assert Tried(65534) && Tried(2);
      LongPrefixTooSmall(base, prefix);
    }
  }
}
