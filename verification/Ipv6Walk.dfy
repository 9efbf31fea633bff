/** The IPv6 extension-header walk (src/kcompat.c:1919-2020) against the header chain of section 4 of
    RFC 8200: each header names the type of the next one, which starts after its own length. */
module Ipv6Walk {
  import opened Wrappers

  // ----- the packet

  type Packet = seq<nat>

  ghost predicate Octets(pkt: Packet) {
    forall i | 0 <= i < |pkt| :: pkt[i] < 0x100
  }

  const HOP: nat := 0
  const ROUTING: nat := 43
  const FRAGMENT: nat := 44
  const AUTH: nat := 51
  const NO_NEXT: nat := 59
  const DEST: nat := 60

  /** ipv6_ext_hdr */
  predicate IsExt(kind: nat) {
    kind == HOP || kind == ROUTING || kind == FRAGMENT || kind == AUTH || kind == NO_NEXT || kind == DEST
  }

  /** A header after which there is no other. */
  predicate Terminal(kind: nat) {
    !IsExt(kind) || kind == NO_NEXT
  }

  datatype Header = Header(kind: nat, at: nat)

  /** The fields the walk looks at lie inside the packet: two octets, four for routing and fragment. */
  predicate Readable(pkt: Packet, h: Header) {
    h.at + (if h.kind == ROUTING || h.kind == FRAGMENT then 4 else 2) <= |pkt|
  }

  /** Fragment offset in octets: the low three bits are flags. */
  function FragOff(pkt: Packet, at: nat): nat
    requires at + 4 <= |pkt|
  {
    (pkt[at + 2] * 0x100 + pkt[at + 3]) / 8 * 8
  }

  function HdrLen(pkt: Packet, h: Header): (r: nat)
    requires Readable(pkt, h)
    ensures r >= 8
  {
    if h.kind == FRAGMENT then 8
    else if h.kind == AUTH then (pkt[h.at + 1] + 2) * 4
    else (pkt[h.at + 1] + 1) * 8
  }

  // ----- the chain

  predicate Later(pkt: Packet, h: Header) {
    h.kind == FRAGMENT && Readable(pkt, h) && FragOff(pkt, h.at) != 0
  }

  /** The chain goes on after a header unless it is the last, is cut off, or starts a later fragment,
      whose payload is not the rest of the chain. */
  predicate Continues(pkt: Packet, h: Header) {
    !Terminal(h.kind) && Readable(pkt, h) && !Later(pkt, h)
  }

  function Next(pkt: Packet, h: Header): Header
    requires Readable(pkt, h)
  {
    Header(pkt[h.at], h.at + HdrLen(pkt, h))
  }

  function Chain(pkt: Packet, h: Header): (c: seq<Header>)
    ensures |c| > 0 && c[0] == h
    decreases if h.at <= |pkt| then |pkt| - h.at + 1 else 0
  {
    if Continues(pkt, h) then [h] + Chain(pkt, Next(pkt, h)) else [h]
  }

  /** A path of linked headers from h that cannot be extended. */
  ghost predicate IsChain(pkt: Packet, h: Header, c: seq<Header>) {
    && |c| > 0 && c[0] == h
    && (forall k | 0 <= k < |c| - 1 :: Continues(pkt, c[k]) && c[k + 1] == Next(pkt, c[k]))
    && !Continues(pkt, c[|c| - 1])
  }

  lemma {:induction false} ChainIsChain(pkt: Packet, h: Header)
    ensures IsChain(pkt, h, Chain(pkt, h))
    decreases if h.at <= |pkt| then |pkt| - h.at + 1 else 0
  {
    hide Terminal, Later, HdrLen;
    if Continues(pkt, h) {
      var rest := Chain(pkt, Next(pkt, h));
      ChainIsChain(pkt, Next(pkt, h));
      var c := Chain(pkt, h);
      assert c == [h] + rest;
      forall k | 0 <= k < |c| - 1 ensures Continues(pkt, c[k]) && c[k + 1] == Next(pkt, c[k]) {
        if k > 0 {
          assert c[k] == rest[k - 1] && c[k + 1] == rest[k];
        }
      }
    }
  }

  lemma ContinuesReads(pkt: Packet, h: Header)
    requires Continues(pkt, h)
    ensures Readable(pkt, h) && Next(pkt, h).at >= h.at + 8 && h.at < |pkt|
  {}

  lemma ChainTail(pkt: Packet, h: Header, c: seq<Header>)
    requires IsChain(pkt, h, c) && |c| > 1
    ensures Continues(pkt, h) && IsChain(pkt, Next(pkt, h), c[1..])
  {
    hide Terminal, Later, HdrLen;
    var rest := c[1..];
    assert c[0 + 1] == Next(pkt, c[0]);
    forall k | 0 <= k < |rest| - 1 ensures Continues(pkt, rest[k]) && rest[k + 1] == Next(pkt, rest[k]) {
      assert rest[k] == c[k + 1] && rest[k + 1] == c[k + 1 + 1];
    }
  }

  /** There is no other such path. */
  lemma {:induction false} ChainUnique(pkt: Packet, h: Header, c: seq<Header>)
    requires IsChain(pkt, h, c)
    ensures c == Chain(pkt, h)
    decreases |c|
  {
    hide Continues, Next;
    if |c| > 1 {
      assert Continues(pkt, c[0]);
      ContinuesReads(pkt, h);
      var rest := c[1..];
      ChainTail(pkt, h, c);
      ChainUnique(pkt, Next(pkt, h), rest);
      assert c == [h] + rest;
    }
  }

  // ----- the question and its answer

  datatype Flags = Flags(frag: bool, auth: bool, skipRh: bool)

  /** What is looked for: a header type, or any end of the chain if target is negative. */
  datatype Query = Query(target: int, stopAtAuth: bool, skipRh: bool)

  /** A routing header with no segments left, passed over when asked. */
  predicate Exhausted(pkt: Packet, q: Query, h: Header) {
    h.kind == ROUTING && q.skipRh && h.at + 4 <= |pkt| && pkt[h.at + 3] == 0
  }

  predicate Accepts(pkt: Packet, q: Query, h: Header) {
    if q.target < 0 then Terminal(h.kind) || (h.kind == AUTH && q.stopAtAuth && Readable(pkt, h))
    else h.kind == q.target && (Terminal(h.kind) || (Continues(pkt, h) && !Exhausted(pkt, q, h)))
  }

  datatype Answer = Found(kind: nat, at: nat) | InLaterFragment(kind: nat, fragoff: nat) | Missing | Malformed

  /** No header of the chain was accepted: what its last header says. */
  function Ending(pkt: Packet, q: Query, h: Header): Answer {
    if Terminal(h.kind) then Missing
    else if !Readable(pkt, h) then Malformed
    else if q.target < 0 && Terminal(pkt[h.at]) && Later(pkt, h) then InLaterFragment(pkt[h.at], FragOff(pkt, h.at))
    else Missing
  }

  /** The first accepted header of a chain. */
  function Ask(pkt: Packet, q: Query, c: seq<Header>): Answer
    requires |c| > 0
  {
    if Accepts(pkt, q, c[0]) then Found(c[0].kind, c[0].at)
    else if |c| == 1 then Ending(pkt, q, c[0])
    else Ask(pkt, q, c[1..])
  }

  /** Success gives the first accepted header of the chain and no other; without one, the last
      header decides. */
  lemma {:induction false} AskIsFirst(pkt: Packet, q: Query, c: seq<Header>, k: nat)
    requires k < |c| && forall j | 0 <= j < k :: !Accepts(pkt, q, c[j])
    ensures Accepts(pkt, q, c[k]) ==> Ask(pkt, q, c) == Found(c[k].kind, c[k].at)
    ensures !Accepts(pkt, q, c[k]) && k == |c| - 1 ==> Ask(pkt, q, c) == Ending(pkt, q, c[k])
    decreases |c|
  {
    hide Accepts, Ending;
    if k > 0 {
      assert !Accepts(pkt, q, c[0]);
      assert c[1..][k - 1] == c[k];
      forall j | 0 <= j < k - 1 ensures !Accepts(pkt, q, c[1..][j]) {
        assert c[1..][j] == c[j + 1];
      }
      AskIsFirst(pkt, q, c[1..], k - 1);
    }
  }

  lemma {:induction false} FoundIsAccepted(pkt: Packet, q: Query, c: seq<Header>) returns (k: nat)
    requires |c| > 0 && Ask(pkt, q, c).Found?
    ensures k < |c| && Accepts(pkt, q, c[k]) && Ask(pkt, q, c) == Found(c[k].kind, c[k].at)
    ensures forall j | 0 <= j < k :: !Accepts(pkt, q, c[j])
    decreases |c|
  {
    hide Accepts;
    if Accepts(pkt, q, c[0]) {
      return 0;
    }
    assert |c| > 1 by {
      EndingFindsNothing(pkt, q, c[0]);
    }
    k := FoundIsAccepted(pkt, q, c[1..]);
    forall j | 0 <= j < k + 1 ensures !Accepts(pkt, q, c[j]) {
      if j > 0 {
        assert c[1..][j - 1] == c[j];
      }
    }
    k := k + 1;
  }

  lemma EndingFindsNothing(pkt: Packet, q: Query, h: Header)
    ensures !Ending(pkt, q, h).Found?
  {}

  /** A requested type is found at its first header, exhausted routing headers passed over. */
  lemma TargetIsFirst(pkt: Packet, h: Header, q: Query) returns (k: nat)
    requires q.target >= 0 && Ask(pkt, q, Chain(pkt, h)).Found?
    ensures k < |Chain(pkt, h)| && Ask(pkt, q, Chain(pkt, h)) == Found(q.target, Chain(pkt, h)[k].at)
    ensures Chain(pkt, h)[k].kind == q.target && !Exhausted(pkt, q, Chain(pkt, h)[k])
    ensures forall j | 0 <= j < k :: Chain(pkt, h)[j].kind == q.target ==> Exhausted(pkt, q, Chain(pkt, h)[j])
  {
    hide Chain, Ask, Next, Exhausted, Continues;
    var c := Chain(pkt, h);
    ChainIsChain(pkt, h);
    k := FoundIsAccepted(pkt, q, c);
    if Terminal(c[k].kind) {
      TerminalIsNotRouting(pkt, q, c[k]);
    }
    forall j | 0 <= j < k && c[j].kind == q.target ensures Exhausted(pkt, q, c[j]) {
      assert Continues(pkt, c[j]);
    }
  }

  lemma TerminalIsNotRouting(pkt: Packet, q: Query, h: Header)
    requires Terminal(h.kind)
    ensures !Exhausted(pkt, q, h)
  {}

  /** A fragment with a nonzero offset ends the chain: no header at or beyond it is ever found. */
  lemma LaterFragmentHides(pkt: Packet, h: Header, q: Query, k: nat)
    requires k < |Chain(pkt, h)| && Later(pkt, Chain(pkt, h)[k])
    ensures k == |Chain(pkt, h)| - 1
    ensures Ask(pkt, q, Chain(pkt, h)).Found? ==>
      exists j :: 0 <= j < k && Ask(pkt, q, Chain(pkt, h)) == Found(Chain(pkt, h)[j].kind, Chain(pkt, h)[j].at)
  {
    hide Chain, Ask;
    var c := Chain(pkt, h);
    ChainIsChain(pkt, h);
    assert !Continues(pkt, c[k]);
    if Ask(pkt, q, c).Found? {
      var j := FoundIsAccepted(pkt, q, c);
      assert !Accepts(pkt, q, c[k]);
      assert j < k;
    }
  }

  // ----- the walk

  const EBADMSG: int := 74
  const ENOENT: int := 2

  /** Return value, offset and fragment offset of an answer, given the offset passed in. */
  function Report(a: Answer, offset: nat): (int, nat, nat) {
    match a
    case Found(kind, at) => (kind, at, 0)
    case InLaterFragment(kind, fragoff) => (kind, offset, fragoff)
    case Missing => (-ENOENT, offset, 0)
    case Malformed => (-EBADMSG, offset, 0)
  }

  /** A fragment header is met no later than the first accepted header. */
  function SawFragment(pkt: Packet, q: Query, c: seq<Header>): bool
    requires |c| > 0
  {
    (c[0].kind == FRAGMENT && c[0].at + 2 <= |pkt|)
    || (!Accepts(pkt, q, c[0]) && |c| > 1 && SawFragment(pkt, q, c[1..]))
  }

  ghost predicate SeenAt(pkt: Packet, q: Query, c: seq<Header>, k: nat) {
    k < |c| && c[k].kind == FRAGMENT && c[k].at + 2 <= |pkt| && forall j | 0 <= j < k :: !Accepts(pkt, q, c[j])
  }

  /** The fragment flag is raised exactly if a fragment header stands at or before the answer. */
  lemma {:induction false} SawExactly(pkt: Packet, q: Query, c: seq<Header>)
    requires |c| > 0
    ensures SawFragment(pkt, q, c) <==> exists k: nat :: SeenAt(pkt, q, c, k)
    decreases |c|
  {
    hide Accepts;
    if c[0].kind == FRAGMENT && c[0].at + 2 <= |pkt| {
      assert SeenAt(pkt, q, c, 0);
    } else if |c| > 1 && !Accepts(pkt, q, c[0]) {
      var rest := c[1..];
      SawExactly(pkt, q, rest);
      if k: nat :| SeenAt(pkt, q, rest, k) {
        assert SeenAt(pkt, q, c, k + 1) by {
          assert forall j | 0 < j < |c| :: c[j] == rest[j - 1];
        }
      }
      if k: nat :| SeenAt(pkt, q, c, k) {
        assert SeenAt(pkt, q, rest, k - 1) by {
          assert forall j | 0 <= j < |rest| :: rest[j] == c[j + 1];
        }
      }
    } else if k: nat :| SeenAt(pkt, q, c, k) {
      assert false;
    }
  }

  /** Where the walk begins: at the network header, or at the inner header the caller points to. */
  function Start(pkt: Packet, network: nat, offset: nat): Option<Header>
    requires network + 40 <= |pkt|
  {
    if offset == 0 then Some(Header(pkt[network + 6], network + 40))
    else if offset + 40 <= |pkt| && pkt[offset] / 16 == 6 then Some(Header(pkt[offset + 6], offset + 40))
    else None
  }

  function Asked(target: int, flags: Option<Flags>): Query {
    Query(target, flags.Some? && flags.value.auth, flags.Some? && flags.value.skipRh)
  }

  /** One header of the walk. */
  lemma AskHere(pkt: Packet, q: Query, h: Header)
    ensures Ask(pkt, q, Chain(pkt, h))
         == if Accepts(pkt, q, h) then Found(h.kind, h.at)
            else if Continues(pkt, h) then Ask(pkt, q, Chain(pkt, Next(pkt, h)))
            else Ending(pkt, q, h)
    ensures SawFragment(pkt, q, Chain(pkt, h))
       <==> (h.kind == FRAGMENT && h.at + 2 <= |pkt|)
            || (!Accepts(pkt, q, h) && Continues(pkt, h) && SawFragment(pkt, q, Chain(pkt, Next(pkt, h))))
  {
    hide Accepts, Terminal, Later, HdrLen, Ending;
    if Continues(pkt, h) {
      assert Chain(pkt, h)[1..] == Chain(pkt, Next(pkt, h));
    }
  }

  /** __kc_ipv6_find_hdr. The result is the offset, fragment offset and flags the caller's pointers
      hold afterwards; flags may be absent. */
  method FindHdr(pkt: Packet, network: nat, offset: nat, target: int, flags: Option<Flags>)
    returns (ret: int, offset': nat, fragoff: nat, flags': Option<Flags>)
    requires Octets(pkt) && |pkt| < 0x8000_0000 && network + 40 <= |pkt|
    ensures var start := Start(pkt, network, offset);
      if start.None? then ret == -EBADMSG && offset' == offset && fragoff == 0 && flags' == flags
      else
        var q, c := Asked(target, flags), Chain(pkt, start.value);
        && (ret, offset', fragoff) == Report(Ask(pkt, q, c), offset)
        && flags' == (if flags.None? then None
                      else Some(flags.value.(frag := flags.value.frag || SawFragment(pkt, q, c))))
  {
    hide Ask, Chain, SawFragment;
    offset', fragoff, flags' := offset, 0, flags;
    var start := network + 40;
    var nexthdr := pkt[network + 6];
    if offset != 0 {
      if offset + 40 > |pkt| || pkt[offset] / 16 != 6 {
        return -EBADMSG, offset', fragoff, flags';
      }
      start := offset + 40;
      nexthdr := pkt[offset + 6];
    }
    ghost var q, all := Asked(target, flags), Chain(pkt, Header(nexthdr, start));
    ghost var seen := false;
    while true
      invariant nexthdr < 0x100 && start <= |pkt| + 2048
      invariant offset' == offset && fragoff == 0
      invariant flags' == if flags.None? then None else Some(flags.value.(frag := flags.value.frag || seen))
      invariant Ask(pkt, q, all) == Ask(pkt, q, Chain(pkt, Header(nexthdr, start)))
      invariant SawFragment(pkt, q, all) == (seen || SawFragment(pkt, q, Chain(pkt, Header(nexthdr, start))))
      decreases if start <= |pkt| then |pkt| - start + 1 else 0
    {
      AskHere(pkt, q, Header(nexthdr, start));
      var found := nexthdr == target;
      if Terminal(nexthdr) {
        if target < 0 || found {
          break;
        }
        return -ENOENT, offset', fragoff, flags';
      }
      if start + 2 > |pkt| {
        return -EBADMSG, offset', fragoff, flags';
      }
      if nexthdr == ROUTING {
        if start + 4 > |pkt| {
          return -EBADMSG, offset', fragoff, flags';
        }
        if flags'.Some? && flags'.value.skipRh && pkt[start + 3] == 0 {
          found := false;
        }
      }
      var hdrlen;
      if nexthdr == FRAGMENT {
        if flags'.Some? {
          flags' := Some(flags'.value.(frag := true));
        }
        seen := true;
        if start + 4 > |pkt| {
          return -EBADMSG, offset', fragoff, flags';
        }
        var off := (pkt[start + 2] * 0x100 + pkt[start + 3]) / 8 * 8;
        if off != 0 {
          if target < 0 && Terminal(pkt[start]) {
            return pkt[start], offset', off, flags';
          }
          return -ENOENT, offset', fragoff, flags';
        }
        hdrlen := 8;
      } else if nexthdr == AUTH {
        if flags'.Some? && flags'.value.auth && target < 0 {
          break;
        }
        hdrlen := (pkt[start + 1] + 2) * 4;
      } else {
        hdrlen := (pkt[start + 1] + 1) * 8;
      }
      if found {
        break;
      }
      nexthdr := pkt[start];
      start := start + hdrlen;
    }
    return nexthdr, start, fragoff, flags';
  }

  // ----- packets written by RFC 8200

  /** Headers as a sender writes them: options, routing and authentication headers with what follows their
      first two octets, fragment headers with their offset in octets. */
  datatype Ext =
    | Options(kind: nat, rest: seq<nat>)
    | Authentication(rest: seq<nat>)
    | Fragmentation(offset: nat, more: bool, rest: seq<nat>)

  /** Lengths are multiples of 8 octets, of 4 for authentication headers, and fit the length octet. */
  predicate ExtOk(e: Ext) {
    match e
    case Options(kind, rest) => kind in {0, 43, 60} && (|rest| + 2) % 8 == 0 && 8 <= |rest| + 2 <= 2048
    case Authentication(rest) => (|rest| + 2) % 4 == 0 && 8 <= |rest| + 2 <= 1028
    case Fragmentation(offset, _, rest) => offset % 8 == 0 && offset < 0x1_0000 && |rest| == 4
  }

  function KindOf(e: Ext): nat {
    match e
    case Options(kind, _) => kind
    case Authentication(_) => 51
    case Fragmentation(_, _, _) => 44
  }

  /** A header in octets, naming the type of the next one. */
  function ExtBytes(e: Ext, next: nat): seq<nat>
    requires ExtOk(e)
  {
    match e
    case Options(_, rest) => [next, (|rest| + 2) / 8 - 1] + rest
    case Authentication(rest) => [next, (|rest| + 2) / 4 - 2] + rest
    case Fragmentation(offset, more, rest) =>
      [next, 0, offset / 0x100, offset % 0x100 + (if more then 1 else 0)] + rest
  }

  /** The type of the first header of a list that ends with an upper-layer header. */
  function FirstKind(es: seq<Ext>, last: nat): nat {
    if es == [] then last else KindOf(es[0])
  }

  function ExtsBytes(es: seq<Ext>, last: nat): seq<nat>
    requires forall i | 0 <= i < |es| :: ExtOk(es[i])
  {
    if es == [] then [] else ExtBytes(es[0], FirstKind(es[1..], last)) + ExtsBytes(es[1..], last)
  }

  function ExtLen(e: Ext): nat {
    match e
    case Fragmentation(_, _, _) => 8
    case _ => |e.rest| + 2
  }

  /** Where each header of the list stands, and the upper-layer header behind them. */
  function Places(es: seq<Ext>, last: nat, at: nat): seq<Header> {
    if es == [] then [Header(last, at)]
    else [Header(KindOf(es[0]), at)] + Places(es[1..], last, at + ExtLen(es[0]))
  }

  /** Octets stand in a packet at an offset. */
  predicate Stands(pkt: Packet, at: nat, bytes: seq<nat>) {
    at + |bytes| <= |pkt| && pkt[at..at + |bytes|] == bytes
  }

  lemma StandsSplit(pkt: Packet, at: nat, a: seq<nat>, b: seq<nat>)
    requires Stands(pkt, at, a + b)
    ensures Stands(pkt, at, a) && Stands(pkt, at + |a|, b)
    ensures forall k | 0 <= k < |a| :: pkt[at + k] == a[k]
  {
    var all := pkt[at..at + |a + b|];
    assert all[..|a|] == pkt[at..at + |a|] && (a + b)[..|a|] == a;
    assert all[|a|..] == pkt[at + |a|..at + |a| + |b|] && (a + b)[|a|..] == b;
    forall k | 0 <= k < |a| ensures pkt[at + k] == a[k] {
      assert pkt[at..at + |a|][k] == pkt[at + k];
    }
  }

  lemma OneHeader(pkt: Packet, at: nat, e: Ext, next: nat)
    requires ExtOk(e) && Stands(pkt, at, ExtBytes(e, next))
    ensures var h := Header(KindOf(e), at);
      && Readable(pkt, h) && !Terminal(h.kind) && |ExtBytes(e, next)| == ExtLen(e)
      && Next(pkt, h) == Header(next, at + ExtLen(e))
      && (Later(pkt, h) <==> e.Fragmentation? && e.offset != 0)
      && (e.Fragmentation? ==> FragOff(pkt, at) == e.offset)
  {
    var b := ExtBytes(e, next);
    StandsSplit(pkt, at, b, []);
    assert b + [] == b;
    assert pkt[at] == b[0] && pkt[at + 1] == b[1];
    match e
    case Options(kind, rest) => LengthOctet(|rest| + 2, 8);
    case Authentication(rest) => LengthOctet(|rest| + 2, 4);
    case Fragmentation(offset, more, rest) =>
      assert pkt[at + 2] == b[2] && pkt[at + 3] == b[3];
      OffsetField(offset, more);
  }

  lemma LengthOctet(len: nat, unit: nat)
    requires unit > 0 && len % unit == 0
    ensures (len / unit) * unit == len
  {}

  lemma OffsetField(offset: nat, more: bool)
    requires offset % 8 == 0 && offset < 0x1_0000
    ensures (offset / 0x100 * 0x100 + (offset % 0x100 + (if more then 1 else 0))) / 8 * 8 == offset
  {}

  /** The chain of a written packet is the list of its headers, each where the lengths before it put it,
      up to the first fragment header with an offset. */
  lemma {:induction false} ChainOfWritten(pkt: Packet, es: seq<Ext>, last: nat, at: nat)
    requires (forall i | 0 <= i < |es| :: ExtOk(es[i])) && Stands(pkt, at, ExtsBytes(es, last)) && Terminal(last)
    requires forall i | 0 <= i < |es| && es[i].Fragmentation? :: es[i].offset == 0
    ensures Chain(pkt, Header(FirstKind(es, last), at)) == Places(es, last, at)
    decreases |es|
  {
    hide ExtBytes, ExtLen, KindOf, Readable, Later, Next, Terminal, ExtOk;
    if es != [] {
      var e, rest := es[0], es[1..];
      StandsSplit(pkt, at, ExtBytes(e, FirstKind(rest, last)), ExtsBytes(rest, last));
      OneHeader(pkt, at, e, FirstKind(rest, last));
      ChainOfWritten(pkt, rest, last, at + ExtLen(e));
    }
  }

  /** Types that are followed by another header. */
  lemma ChainedTypes(kind: nat)
    ensures !Terminal(kind) <==> kind == 0 || kind == 43 || kind == 44 || kind == 51 || kind == 60
  {}

  /** So looking for a type in a written packet finds the first header of that type, at the sum of the
      lengths before it. */
  lemma FoundWhereWritten(pkt: Packet, es: seq<Ext>, last: nat, at: nat, k: nat)
    requires (forall i | 0 <= i < |es| :: ExtOk(es[i])) && Stands(pkt, at, ExtsBytes(es, last)) && Terminal(last)
    requires forall i | 0 <= i < |es| && es[i].Fragmentation? :: es[i].offset == 0
    requires k <= |es| && forall i | 0 <= i < k :: KindOf(es[i]) != FirstKind(es[k..], last)
    ensures Ask(pkt, Query(FirstKind(es[k..], last), false, false), Chain(pkt, Header(FirstKind(es, last), at)))
         == Found(FirstKind(es[k..], last), at + LengthOf(es[..k]))
  {
    hide Chain, Ask, ExtBytes, ExtLen, Terminal, ExtOk, Later, Readable, KindOf;
    var c, kind := Places(es, last, at), FirstKind(es[k..], last);
    ChainOfWritten(pkt, es, last, at);
    ChainIsChain(pkt, Header(FirstKind(es, last), at));
    forall i | 0 <= i <= k ensures i < |c| && c[i] == Header(FirstKind(es[i..], last), at + LengthOf(es[..i])) {
      PlaceOf(es, last, at, i);
    }
    forall i | 0 <= i < k ensures !Accepts(pkt, Query(kind, false, false), c[i]) {
      assert c[i].kind == KindOf(es[i]);
    }
    PlacesLength(es, last, at);
    assert Accepts(pkt, Query(kind, false, false), c[k]);
    AskIsFirst(pkt, Query(kind, false, false), c, k);
  }

  /** A written routing header is exhausted if its fourth octet, the segments left, is zero. */
  lemma RoutingExhausted(pkt: Packet, at: nat, rest: seq<nat>, next: nat, q: Query)
    requires ExtOk(Options(43, rest)) && Stands(pkt, at, ExtBytes(Options(43, rest), next))
    ensures Exhausted(pkt, q, Header(43, at)) <==> q.skipRh && rest[1] == 0
  {
    var b := ExtBytes(Options(43, rest), next);
    StandsSplit(pkt, at, b, []);
    assert b + [] == b;
    assert pkt[at + 3] == b[3] == rest[1];
  }

  /** Looking for no type in particular ends at the upper-layer header, or, if asked to, at the first
      authentication header. */
  lemma EndOfWritten(pkt: Packet, es: seq<Ext>, last: nat, at: nat, stopAtAuth: bool, skipRh: bool, k: nat)
    requires (forall i | 0 <= i < |es| :: ExtOk(es[i])) && Stands(pkt, at, ExtsBytes(es, last)) && Terminal(last)
    requires forall i | 0 <= i < |es| && es[i].Fragmentation? :: es[i].offset == 0
    requires k <= |es| && (stopAtAuth ==> forall i | 0 <= i < k :: !es[i].Authentication?)
    requires k < |es| ==> stopAtAuth && es[k].Authentication?
    ensures Ask(pkt, Query(-1, stopAtAuth, skipRh), Chain(pkt, Header(FirstKind(es, last), at)))
         == Found(if k < |es| then 51 else last, at + LengthOf(es[..k]))
  {
    hide Chain, Ask, ExtBytes, ExtLen, Terminal, ExtOk, Later, Readable;
    var c, q := Places(es, last, at), Query(-1, stopAtAuth, skipRh);
    ChainOfWritten(pkt, es, last, at);
    ChainIsChain(pkt, Header(FirstKind(es, last), at));
    PlacesLength(es, last, at);
    forall i | 0 <= i <= k ensures i < |c| && c[i] == Header(FirstKind(es[i..], last), at + LengthOf(es[..i])) {
      PlaceOf(es, last, at, i);
    }
    forall i | 0 <= i < k ensures !Accepts(pkt, q, c[i]) {
      assert c[i].kind == KindOf(es[i]) && Continues(pkt, c[i]);
      assert ExtOk(es[i]);
      AuthIsAuth(es[i]);
    }
    if k < |es| {
      assert Continues(pkt, c[k]);
    }
    AskIsFirst(pkt, q, c, k);
  }

  lemma AuthIsAuth(e: Ext)
    requires ExtOk(e)
    ensures KindOf(e) == 51 <==> e.Authentication?
  {}

  /** Behind a fragment header with an offset there is only its fragment: a caller who looks for no type
      learns the type and the offset of the fragment, any other that there is nothing. */
  lemma LaterFragmentAnswers(pkt: Packet, at: nat, offset: nat, more: bool, rest: seq<nat>, next: nat, q: Query)
    requires ExtOk(Fragmentation(offset, more, rest)) && offset != 0
    requires Stands(pkt, at, ExtBytes(Fragmentation(offset, more, rest), next))
    ensures Ask(pkt, q, Chain(pkt, Header(44, at)))
         == if q.target < 0 && Terminal(next) then InLaterFragment(next, offset) else Missing
  {
    hide ExtBytes;
    OneHeader(pkt, at, Fragmentation(offset, more, rest), next);
    AskHere(pkt, q, Header(44, at));
  }

  function LengthOf(es: seq<Ext>): nat {
    if es == [] then 0 else ExtLen(es[0]) + LengthOf(es[1..])
  }

  lemma {:induction false} PlacesLength(es: seq<Ext>, last: nat, at: nat)
    ensures |Places(es, last, at)| == |es| + 1 && Places(es, last, at)[|es|].kind == last
    decreases |es|
  {
    hide ExtLen;
    if es != [] {
      PlacesLength(es[1..], last, at + ExtLen(es[0]));
    }
  }

  lemma {:induction false} PlaceOf(es: seq<Ext>, last: nat, at: nat, k: nat)
    requires k <= |es|
    ensures k < |Places(es, last, at)|
    ensures Places(es, last, at)[k] == Header(FirstKind(es[k..], last), at + LengthOf(es[..k]))
    decreases k
  {
    hide ExtLen, KindOf;
    if k == 0 {
      assert es[0..] == es;
    } else {
      PlaceOf(es[1..], last, at + ExtLen(es[0]), k - 1);
      assert es[1..][k - 1..] == es[k..];
      assert es[..k][0] == es[0] && es[..k][1..] == es[1..][..k - 1];
    }
  }

  /** The fixed header: version 6, traffic class and flow label, payload length, next header, hop limit and
      two addresses. */
  function FixedBytes(flow: seq<nat>, payload: seq<nat>, next: nat, hops: nat, addresses: seq<nat>): seq<nat>
    requires |flow| == 3 && |payload| == 2 && |addresses| == 32
  {
    [0x60] + flow + payload + [next, hops] + addresses
  }

  /** A walk that starts at a fixed header goes on with the type it names, 40 octets further. */
  lemma StartsAtFixed(pkt: Packet, at: nat, flow: seq<nat>, payload: seq<nat>, next: nat, hops: nat, addresses: seq<nat>)
    requires |flow| == 3 && |payload| == 2 && |addresses| == 32
    requires Stands(pkt, at, FixedBytes(flow, payload, next, hops, addresses))
    ensures at + 40 <= |pkt|
    ensures Start(pkt, at, 0) == Some(Header(next, at + 40))
    ensures forall network: nat | network + 40 <= |pkt| && at > 0 :: Start(pkt, network, at) == Some(Header(next, at + 40))
  {
    var b := FixedBytes(flow, payload, next, hops, addresses);
    assert b[0] == 0x60 && b[6] == next && |b| == 40;
    StandsSplit(pkt, at, b, []);
    assert b + [] == b;
    assert pkt[at + 0] == b[0] && pkt[at + 6] == b[6];
  }

  /** Any other version is refused where the caller pointed. */
  lemma OtherVersionRefused(pkt: Packet, network: nat, at: nat)
    requires network + 40 <= |pkt| && 0 < at && at + 40 <= |pkt| && !(0x60 <= pkt[at] < 0x70)
    ensures Start(pkt, network, at) == None
  {}
}
