/**
 The blinking characters of fish/blink.S: a linked list threaded through the fixed pool of fish/fish.c,
 in which a slot is free when its location is 0, and a tick routine that counts every node down.

 The list is proved to behave as a sequence, `PhaseAfter` gives the state of a node after any number of
 ticks in closed form, for every 16-bit pair of lengths, and `LeftAloneItBlinks` says that in a run of any
 driver operations a node keeps that phase unless an operation names its location.
 */
module Blink {
  import opened Bytes
  import opened Counting

  const POOL_SIZE := 2000 // 80 * 25
  const VIDEO_BYTES := 4000

  type uint16 = n: int | 0 <= n < UINT16_SIZE

  /** The fields of struct mp1_blink_struct except `next`. */
  datatype Blinker = Blinker(
    location: uint16, onChar: byte, offChar: byte, onLength: uint16, offLength: uint16,
    countdown: uint16, status: uint16)

  /** A pool slot; `next` is a slot number, or -1 for NULL. */
  datatype Node = Node(b: Blinker, next: int)

  const FREE := Node(Blinker(0, 0, 0, 0, 0, 0, 0), -1)

  // ---------------------------------------------------------------- one blinker

  function Fresh(b: Blinker): Blinker {
    b.(status := 1, countdown := b.onLength)
  }

  predicate IsOn(b: Blinker) {
    b.status % 2 == 1
  }

  /** A 16-bit word is positive as a signed number. */
  predicate SignedPositive(w: uint16) {
    1 <= w < 0x8000
  }

  predicate Expires(b: Blinker) {
    !SignedPositive((b.countdown + 0xFFFF) % UINT16_SIZE)
  }

  /** One run of `mp1_rtc_tasklet` for one node. */
  function Ticked(b: Blinker): Blinker {
    if !Expires(b) then b.(countdown := (b.countdown + 0xFFFF) % UINT16_SIZE)
    else if IsOn(b) then b.(countdown := b.offLength, status := b.status - 1)
    else b.(countdown := b.onLength, status := (b.status + 1) % UINT16_SIZE)
  }

  function TickedTimes(b: Blinker, n: nat): Blinker {
    if n == 0 then b else Ticked(TickedTimes(b, n - 1))
  }

  /** How many ticks a phase of nominal length l really lasts: 0 and the lengths over 2^15 act as 1. */
  function Lasts(l: uint16): nat {
    if 1 <= l <= 0x8000 then l else 1
  }

  function CountdownAt(l: uint16, k: nat): int {
    if k == 0 then l else l - k
  }

  lemma {:induction false} MulMonotone(p: nat, a: nat, b: nat)
    requires a <= b
    ensures p * a <= p * b
  {
    if a < b {
      MulMonotone(p, a, b - 1);
      assert p * b == p * (b - 1) + p;
    }
  }

  lemma {:induction false} QuotientUnique(p: nat, q: nat, r: nat, d: nat, m: nat)
    requires p * q + r == p * d + m && r < p && m < p
    ensures q == d && r == m
    decreases q
  {
    MulMonotone(p, Min(1, q), q);
    MulMonotone(p, Min(1, d), d);
    if q > 0 && d > 0 {
      assert p * q == p * (q - 1) + p && p * d == p * (d - 1) + p;
      QuotientUnique(p, q - 1, r, d - 1, m);
    }
  }

  lemma ModIs(n: nat, p: nat, q: nat, r: nat)
    requires n == p * q + r && r < p
    ensures n % p == r && n / p == q
  {
    assert n == p * (n / p) + n % p;
    QuotientUnique(p, q, r, n / p, n % p);
  }

  lemma ModSucc(n: nat, p: nat)
    requires p > 0
    ensures (n + 1) % p == if n % p + 1 == p then 0 else n % p + 1
  {
    var q, r := n / p, n % p;
    assert n == p * q + r;
    if r + 1 == p {
      assert p * (q + 1) == p * q + p;
      ModIs(n + 1, p, q + 1, 0);
    } else {
      ModIs(n + 1, p, q, r + 1);
    }
  }

  /**
   n ticks after it was added, a node is on exactly when n mod (on + off) < on, and its countdown is what is
   left of the phase; on and off are the lengths as they really last.
   */
  lemma {:induction false} PhaseAfter(b: Blinker, n: nat)
    ensures InPhase(b, TickedTimes(Fresh(b), n), n % (Lasts(b.onLength) + Lasts(b.offLength)))
  {
    var on, off := Lasts(b.onLength), Lasts(b.offLength);
    var p := on + off;
    if n == 0 {
      ModIs(0, p, 0, 0);
    } else {
      PhaseAfter(b, n - 1);
      ModSucc(n - 1, p);
      PhaseStep(b, TickedTimes(Fresh(b), n - 1), (n - 1) % p);
    }
  }

  /** Place m of the period, as `PhaseAfter` states it. */
  ghost predicate InPhase(b: Blinker, r: Blinker, m: nat) {
    var on := Lasts(b.onLength);
    && r.location == b.location && r.onChar == b.onChar && r.offChar == b.offChar
    && r.onLength == b.onLength && r.offLength == b.offLength
    && (IsOn(r) <==> m < on) && r.status < 2
    && r.countdown == if m < on then CountdownAt(b.onLength, m) else CountdownAt(b.offLength, m - on)
  }

  lemma PhaseStep(b: Blinker, r: Blinker, m: nat)
    requires m < Lasts(b.onLength) + Lasts(b.offLength) && InPhase(b, r, m)
    ensures InPhase(b, Ticked(r), if m + 1 == Lasts(b.onLength) + Lasts(b.offLength) then 0 else m + 1)
  {
    assert r.countdown == 0 ==> (r.countdown + 0xFFFF) % UINT16_SIZE == 0xFFFF;
    assert r.countdown > 0 ==> (r.countdown + 0xFFFF) % UINT16_SIZE == r.countdown - 1;
  }

  /** The phase that was asked for: on for `onLength` ticks, off for `offLength` ticks, and over again. */
  predicate AskedOn(b: Blinker, n: nat) {
    b.onLength + b.offLength > 0 && n % (b.onLength + b.offLength) < b.onLength
  }

  ghost predicate AsAskedAt(b: Blinker, n: nat) {
    IsOn(TickedTimes(Fresh(b), n)) <==> AskedOn(b, n)
  }

  /** A blinker is on exactly when it should be, for ever, if and only if both lengths are from 1 to 2^15. */
  lemma BlinksAsAsked(b: Blinker)
    ensures (forall n: nat :: AsAskedAt(b, n)) <==> 1 <= b.onLength <= 0x8000 && 1 <= b.offLength <= 0x8000
  {
    if 1 <= b.onLength <= 0x8000 && 1 <= b.offLength <= 0x8000 {
      forall n: nat
        ensures AsAskedAt(b, n)
      {
        PhaseAfter(b, n);
      }
    } else {
      NotAsAsked(b, FirstWrongTick(b));
    }
  }

  /** When a blinker with an unusual length is first in the wrong phase. */
  function FirstWrongTick(b: Blinker): nat {
    if b.onLength == 0 then 0
    else if b.onLength > 0x8000 then 1
    else if b.offLength == 0 then b.onLength
    else b.onLength + 1
  }

  lemma NotAsAsked(b: Blinker, n: nat)
    requires !(1 <= b.onLength <= 0x8000 && 1 <= b.offLength <= 0x8000) && n == FirstWrongTick(b)
    ensures !AsAskedAt(b, n)
  {
    PhaseAfter(b, n);
    hide TickedTimes;
    SmallMod(n, Lasts(b.onLength) + Lasts(b.offLength));
    SmallMod(n, b.onLength + b.offLength);
  }

  lemma SmallMod(n: nat, p: nat)
    requires n <= p
    ensures p > 0 ==> n % p == if n == p then 0 else n
  {
    if n < p {
      ModIs(n, p, 0, n);
    } else if p > 0 {
      ModIs(n, p, 1, 0);
    }
  }

  // ---------------------------------------------------------------- the list in the pool

  function After(list: seq<nat>, k: nat): int {
    if k + 1 < |list| then list[k + 1] else -1
  }

  /** `list` names the slots of the linked list from `head` on. */
  ghost predicate Linked(pool: seq<Node>, head: int, list: seq<nat>) {
    && head == (if list == [] then -1 else list[0])
    && (forall k :: 0 <= k < |list| ==> list[k] < |pool|)
    && forall k :: 0 <= k < |list| ==> pool[list[k]].next == After(list, k)
  }

  ghost predicate NoRepeats(list: seq<nat>) {
    forall i, j :: 0 <= i < j < |list| ==> list[i] != list[j]
  }

  /** Every slot with a non-zero location is listed, and all locations are on the screen. */
  ghost predicate SlotsOk(pool: seq<Node>, list: seq<nat>) {
    && (forall i :: 0 <= i < |pool| && pool[i].b.location != 0 ==> i in list)
    && forall i :: 0 <= i < |pool| ==> pool[i].b.location < POOL_SIZE
  }

  /** No listed node is at location 0, where its slot would look free. */
  predicate NoZero(bs: seq<Blinker>) {
    forall k :: 0 <= k < |bs| ==> bs[k].location != 0
  }

  ghost predicate ListOk(pool: seq<Node>, head: int, list: seq<nat>) {
    |pool| == POOL_SIZE && Linked(pool, head, list) && NoRepeats(list) && SlotsOk(pool, list)
  }

  ghost function Blinkers(pool: seq<Node>, list: seq<nat>): (bs: seq<Blinker>)
    requires forall k :: 0 <= k < |list| ==> list[k] < |pool|
    ensures |bs| == |list| && forall k :: 0 <= k < |list| ==> bs[k] == pool[list[k]].b
  {
    seq(|list|, k requires 0 <= k < |list| => pool[list[k]].b)
  }

  /** The first blinker at a location, or the number of blinkers. */
  function FirstAt(bs: seq<Blinker>, location: uint16): (k: nat)
    ensures k <= |bs| && (k < |bs| ==> bs[k].location == location)
    ensures forall i :: 0 <= i < k ==> bs[i].location != location
  {
    if bs == [] || bs[0].location == location then 0 else 1 + FirstAt(bs[1..], location)
  }

  lemma {:induction false} FirstAtIs(bs: seq<Blinker>, location: uint16, k: nat)
    requires k <= |bs| && (k < |bs| ==> bs[k].location == location)
    requires forall i :: 0 <= i < k ==> bs[i].location != location
    ensures FirstAt(bs, location) == k
  {
    if k > 0 {
      FirstAtIs(bs[1..], location, k - 1);
    }
  }

  function Without<T>(s: seq<T>, k: nat): seq<T>
    requires k < |s|
  {
    s[..k] + s[k + 1..]
  }

  /** The pool and head after `mp1_ioctl_add` has filled slot `slot`. */
  function AddedAt(pool: seq<Node>, head: int, slot: nat, b: Blinker): (seq<Node>, int)
    requires slot < |pool|
  {
    (pool[slot := Node(Fresh(b), head)], slot)
  }

  lemma AddLinks(pool: seq<Node>, head: int, list: seq<nat>, slot: nat, node: Node)
    requires Linked(pool, head, list) && slot < |pool| && slot !in list && node.next == head
    ensures Linked(pool[slot := node], slot, [slot] + list)
  {
    var pool', list' := pool[slot := node], [slot] + list;
    forall k | 0 <= k < |list'|
      ensures list'[k] < |pool'| && pool'[list'[k]].next == After(list', k)
    {
      if k > 0 {
        assert list[k - 1] in list && list[k - 1] < |pool| && pool[list[k - 1]].next == After(list, k - 1);
      }
    }
  }

  lemma AddSlots(pool: seq<Node>, list: seq<nat>, slot: nat, node: Node)
    requires SlotsOk(pool, list) && slot < |pool| && node.b.location < POOL_SIZE
    ensures SlotsOk(pool[slot := node], [slot] + list)
  {
    assert forall i :: i in [slot] + list <==> i == slot || i in list;
  }

  lemma AddBlinker(pool: seq<Node>, list: seq<nat>, slot: nat, node: Node)
    requires (forall k :: 0 <= k < |list| ==> list[k] < |pool|) && slot < |pool| && slot !in list
    ensures forall k :: 0 <= k < |[slot] + list| ==> ([slot] + list)[k] < |pool|
    ensures Blinkers(pool[slot := node], [slot] + list) == [node.b] + Blinkers(pool, list)
  {
    assert forall k :: 0 <= k < |list| ==> list[k] != slot;
  }

  lemma AddKeepsList(pool: seq<Node>, head: int, list: seq<nat>, slot: nat, b: Blinker)
    requires ListOk(pool, head, list) && slot < POOL_SIZE && slot !in list && b.location < POOL_SIZE
    ensures var (pool', head') := AddedAt(pool, head, slot, b);
            ListOk(pool', head', [slot] + list) && Blinkers(pool', [slot] + list) == [Fresh(b)] + Blinkers(pool, list)
  {
    assert NoRepeats([slot] + list) by {
      hide SlotsOk, Linked;
    }
    var node := Node(Fresh(b), head);
    AddBlinker(pool, list, slot, node);
    hide SlotsOk, NoRepeats;
    AddLinks(pool, head, list, slot, node);
    AddSlots(pool, list, slot, node);
  }

  /** A slot at location 0 is listed only if a node at location 0 is. */
  lemma FreeSlotIsNew(pool: seq<Node>, head: int, list: seq<nat>, slot: nat)
    requires ListOk(pool, head, list) && NoZero(Blinkers(pool, list)) && slot < POOL_SIZE && pool[slot].b.location == 0
    ensures slot !in list
  {
    forall k | 0 <= k < |list|
      ensures list[k] != slot
    {
      assert Blinkers(pool, list)[k].location != 0;
    }
  }

  lemma LinkedAt(pool: seq<Node>, head: int, list: seq<nat>, k: nat)
    requires Linked(pool, head, list) && k < |list|
    ensures head == list[0] && list[k] < |pool| && pool[list[k]].next == After(list, k)
  {
  }

  /** If a listed slot is taken again, the links lead from it down to where it was before. */
  lemma {:induction false} LinksLeadBack(
      pool: seq<Node>, head: int, list: seq<nat>, k: nat, b: Blinker, list': seq<nat>, j: nat)
    requires Linked(pool, head, list) && NoRepeats(list) && k < |list| && j <= k && list[k] < |pool|
    requires Linked(pool[list[k] := Node(Fresh(b), head)], list[k], list') && list' != []
    ensures j + 1 < |list'| && list'[0] == list[k] && list'[j + 1] == list[j]
  {
    hide Linked;
    var pool' := pool[list[k] := Node(Fresh(b), head)];
    LinkedAt(pool', list[k], list', 0);
    LinkedAt(pool, head, list, 0);
    if j > 0 {
      LinksLeadBack(pool, head, list, k, b, list', j - 1);
      LinkedAt(pool', list[k], list', j);
      LinkedAt(pool, head, list, j - 1);
    }
  }

  /** An added node keeps the list in order exactly when its slot was not listed already. */
  lemma AddKeepsListExactlyWhenSlotIsNew(pool: seq<Node>, head: int, list: seq<nat>, slot: nat, b: Blinker)
    requires ListOk(pool, head, list) && slot < POOL_SIZE && b.location < POOL_SIZE
    ensures var (pool', head') := AddedAt(pool, head, slot, b);
            slot !in list <==> exists list' :: ListOk(pool', head', list')
  {
    var (pool', head') := AddedAt(pool, head, slot, b);
    if slot !in list {
      AddKeepsList(pool, head, list, slot, b);
    } else {
      var k :| 0 <= k < |list| && list[k] == slot;
      forall list': seq<nat>
        ensures !ListOk(pool', head', list')
      {
        if ListOk(pool', head', list') {
          LinksLeadBack(pool, head, list, k, b, list', k);
        }
      }
    }
  }

  /**
   Location 0 is accepted but still marks the slot as free.  If a node is added there and another node after
   it, both take the same slot and the list runs in a circle.
   */
  lemma LocationZeroMakesACycle(pool: seq<Node>, head: int, slot: nat, zero: Blinker, b: Blinker)
    requires slot < |pool| && pool[slot].b.location == 0
    requires forall i :: 0 <= i < slot ==> pool[i].b.location != 0
    requires zero.location == 0
    ensures var (pool1, head1) := AddedAt(pool, head, slot, zero);
            && pool1[slot].b.location == 0 && (forall i :: 0 <= i < slot ==> pool1[i].b.location != 0)
            && var (pool2, head2) := AddedAt(pool1, head1, slot, b);
               head2 == slot && pool2[slot].next == slot && forall list: seq<nat> :: !ListOk(pool2, head2, list)
  {
    var (pool1, head1) := AddedAt(pool, head, slot, zero);
    var (pool2, head2) := AddedAt(pool1, head1, slot, b);
    forall list: seq<nat>
      ensures !ListOk(pool2, head2, list)
    {
      assert Linked(pool2, head2, list) ==> list[0] == slot && After(list, 0) == slot;
    }
  }

  lemma RemoveKeepsList(pool: seq<Node>, head: int, list: seq<nat>, k: nat, pool': seq<Node>, head': int)
    requires ListOk(pool, head, list) && k < |list| && |pool'| == |pool|
    requires forall i :: 0 <= i < |pool| && i != list[k] && (k == 0 || i != list[k - 1]) ==> pool'[i] == pool[i]
    requires pool'[list[k]] == FREE
    requires if k == 0 then head' == pool[list[0]].next
             else head' == head && pool'[list[k - 1]] == pool[list[k - 1]].(next := pool[list[k]].next)
    ensures ListOk(pool', head', Without(list, k))
    ensures Blinkers(pool', Without(list, k)) == Without(Blinkers(pool, list), k)
  {
    RemoveBlinker(pool, list, k, pool');
    RemoveLinks(pool, head, list, k, pool', head');
    RemoveSlots(pool, list, k, pool');
  }

  lemma RemoveBlinker(pool: seq<Node>, list: seq<nat>, k: nat, pool': seq<Node>)
    requires NoRepeats(list) && k < |list| && |pool'| == |pool| && (forall j :: 0 <= j < |list| ==> list[j] < |pool|)
    requires forall i :: 0 <= i < |pool| && i != list[k] ==> pool'[i].b == pool[i].b
    ensures NoRepeats(Without(list, k))
    ensures forall j :: 0 <= j < |Without(list, k)| ==> Without(list, k)[j] < |pool'|
    ensures Blinkers(pool', Without(list, k)) == Without(Blinkers(pool, list), k)
  {
    var list' := Without(list, k);
    assert forall j :: 0 <= j < |list'| ==> list'[j] == list[if j < k then j else j + 1];
  }

  lemma RemoveLinks(pool: seq<Node>, head: int, list: seq<nat>, k: nat, pool': seq<Node>, head': int)
    requires Linked(pool, head, list) && NoRepeats(list) && k < |list| && |pool'| == |pool|
    requires forall i :: 0 <= i < |pool| && i != list[k] && (k == 0 || i != list[k - 1]) ==> pool'[i] == pool[i]
    requires if k == 0 then head' == pool[list[0]].next
             else head' == head && pool'[list[k - 1]] == pool[list[k - 1]].(next := pool[list[k]].next)
    ensures Linked(pool', head', Without(list, k))
  {
    var list' := Without(list, k);
    forall j | 0 <= j < |list'|
      ensures list'[j] < |pool'| && pool'[list'[j]].next == After(list', j)
    {
      var i := if j < k then j else j + 1;
      assert list'[j] == list[i] && pool[list[i]].next == After(list, i) && pool[list[k]].next == After(list, k);
    }
    assert pool[list[0]].next == After(list, 0);
  }

  lemma RemoveSlots(pool: seq<Node>, list: seq<nat>, k: nat, pool': seq<Node>)
    requires SlotsOk(pool, list) && NoRepeats(list) && k < |list| && |pool'| == |pool| && list[k] < |pool|
    requires forall i :: 0 <= i < |pool| && i != list[k] ==> pool'[i].b == pool[i].b
    requires pool'[list[k]] == FREE
    ensures SlotsOk(pool', Without(list, k))
  {
    var list' := Without(list, k);
    assert list == list[..k] + [list[k]] + list[k + 1..];
    assert list[k] !in list[..k] && list[k] !in list[k + 1..];
    forall i
      ensures i in list' <==> i in list && i != list[k]
    {
    }
  }

  lemma ListIsShort(pool: seq<Node>, head: int, list: seq<nat>)
    requires ListOk(pool, head, list)
    ensures |list| <= POOL_SIZE && (|list| == POOL_SIZE ==> forall i :: 0 <= i < POOL_SIZE ==> i in list)
    ensures (forall i :: 0 <= i < POOL_SIZE ==> i in list) ==> |list| == POOL_SIZE
  {
    var listed := seq(POOL_SIZE, i requires 0 <= i < POOL_SIZE => i in list);
    DistinctCount(list);
    var marked := set p: nat | p < POOL_SIZE && listed[p];
    assert Elements(list) == marked by {
      forall p | p in list
        ensures p < POOL_SIZE
      {
        var k :| 0 <= k < |list| && list[k] == p;
      }
    }
    SlotCount(listed, marked, POOL_SIZE);
    assert forall i :: 0 <= i < POOL_SIZE ==> listed[i] == (i in list);
  }

  /** No slot is free exactly when the list holds 2000 nodes, none of them at location 0; it never holds more. */
  lemma FullExactlyWhenNoSlotIsFree(pool: seq<Node>, head: int, list: seq<nat>)
    requires ListOk(pool, head, list)
    ensures |list| <= 2000
    ensures |list| == 2000 && NoZero(Blinkers(pool, list)) <==>
            forall i :: 0 <= i < 2000 ==> pool[i].b.location != 0
  {
    ListIsShort(pool, head, list);
    NoZeroMeans(pool, list);
    hide Linked, NoRepeats, NoZero, Blinkers;
  }

  lemma NoZeroMeans(pool: seq<Node>, list: seq<nat>)
    requires forall k :: 0 <= k < |list| ==> list[k] < |pool|
    ensures NoZero(Blinkers(pool, list)) <==>
            forall i :: 0 <= i < |pool| && i in list ==> pool[i].b.location != 0
  {
    var bs := Blinkers(pool, list);
    if NoZero(bs) {
      forall i | 0 <= i < |pool| && i in list
        ensures pool[i].b.location != 0
      {
        var k :| 0 <= k < |list| && list[k] == i;
        assert bs[k].location != 0;
      }
    } else {
      var k :| 0 <= k < |bs| && bs[k].location == 0;
      assert list[k] in list;
    }
  }

  // ---------------------------------------------------------------- the driver

  /** What the screen should show for a blinker. */
  function Glyph(b: Blinker): byte {
    if IsOn(b) then b.onChar else b.offChar
  }

  ghost predicate DistinctPlaces(bs: seq<Blinker>) {
    forall i, j :: 0 <= i < j < |bs| ==> bs[i].location != bs[j].location
  }

  /** Every blinker's character is on the screen. */
  ghost predicate Displayed(video: seq<byte>, bs: seq<Blinker>) {
    forall k :: 0 <= k < |bs| ==> 2 * bs[k].location < |video| && video[2 * bs[k].location] == Glyph(bs[k])
  }

  /** One blinker to a location, and all of them on the screen. */
  ghost predicate InOrder(video: seq<byte>, bs: seq<Blinker>) {
    DistinctPlaces(bs) && Displayed(video, bs)
  }

  function TickedAll(bs: seq<Blinker>): (r: seq<Blinker>)
    ensures |r| == |bs| && forall k :: 0 <= k < |bs| ==> r[k] == Ticked(bs[k])
  {
    seq(|bs|, k requires 0 <= k < |bs| => Ticked(bs[k]))
  }

  /** The timing of the first blinker at `from` copied to the first blinker at `to`. */
  function Synced(bs: seq<Blinker>, from: uint16, to: uint16): seq<Blinker> {
    var i, j := FirstAt(bs, from), FirstAt(bs, to);
    if i < |bs| && j < |bs| then bs[j := WithTiming(bs[j], bs[i])] else bs
  }

  function WithTiming(b: Blinker, s: Blinker): Blinker {
    b.(onLength := s.onLength, offLength := s.offLength, countdown := s.countdown, status := s.status)
  }

  // ---------------------------------------------------------------- runs of the driver

  datatype Op = Tick | AddAt(b: Blinker) | RemoveAt(location: uint16) | SyncFrom(from: uint16, to: uint16)

  /** One operation on the list of blinkers. */
  function Apply(bs: seq<Blinker>, op: Op): seq<Blinker> {
    match op
    case Tick => TickedAll(bs)
    case AddAt(b) => if b.location >= POOL_SIZE || |bs| == POOL_SIZE then bs else [Fresh(b)] + bs
    case RemoveAt(location) =>
      var k := FirstAt(bs, location);
      if k < |bs| then Without(bs, k) else bs
    case SyncFrom(from, to) => Synced(bs, from, to)
  }

  function ApplyAll(bs: seq<Blinker>, ops: seq<Op>): seq<Blinker> {
    if ops == [] then bs else Apply(ApplyAll(bs, ops[..|ops| - 1]), ops[|ops| - 1])
  }

  function TickCount(ops: seq<Op>): nat {
    if ops == [] then 0 else TickCount(ops[..|ops| - 1]) + if ops[|ops| - 1].Tick? then 1 else 0
  }

  function BlinkerAt(bs: seq<Blinker>, location: uint16): Option<Blinker> {
    var k := FirstAt(bs, location);
    if k < |bs| then Some(bs[k]) else None
  }

  /** An operation that adds, removes or retimes a blinker at a location. */
  predicate Concerns(op: Op, location: uint16) {
    match op
    case Tick => false
    case AddAt(b) => b.location == location
    case RemoveAt(l) => l == location
    case SyncFrom(_, to) => to == location
  }

  lemma ApplyElsewhere(bs: seq<Blinker>, op: Op, location: uint16)
    requires !Concerns(op, location)
    ensures var was, now := BlinkerAt(bs, location), BlinkerAt(Apply(bs, op), location);
            if was.None? then now.None? else now == Some(if op.Tick? then Ticked(was.value) else was.value)
  {
    hide Ticked, FirstAt;
    match op {
      case Tick =>
        TickKeepsPlaces(bs);
        FirstAtIs(TickedAll(bs), location, FirstAt(bs, location));
      case AddAt(b) =>
        FirstAtIs([Fresh(b)] + bs, location, FirstAt(bs, location) + 1);
      case RemoveAt(l) =>
        RemoveElsewhere(bs, l, location);
      case SyncFrom(from, to) =>
        FirstAtIs(Synced(bs, from, to), location, FirstAt(bs, location));
    }
  }

  lemma RemoveElsewhere(bs: seq<Blinker>, l: uint16, location: uint16)
    requires l != location
    ensures BlinkerAt(Apply(bs, RemoveAt(l)), location) == BlinkerAt(bs, location)
  {
    hide FirstAt;
    var j, k := FirstAt(bs, l), FirstAt(bs, location);
    if j < |bs| {
      FirstAtIs(Without(bs, j), location, if j < k then k - 1 else k);
    }
  }

  /** A blinker whose location no operation names is ticked once for every tasklet, and not changed otherwise. */
  lemma {:induction false} LeftAloneItTicks(bs: seq<Blinker>, ops: seq<Op>, location: uint16)
    requires forall i :: 0 <= i < |ops| ==> !Concerns(ops[i], location)
    ensures var was, now := BlinkerAt(bs, location), BlinkerAt(ApplyAll(bs, ops), location);
            if was.None? then now.None? else now == Some(TickedTimes(was.value, TickCount(ops)))
  {
    hide Apply, BlinkerAt;
    if ops != [] {
      LeftAloneItTicks(bs, ops[..|ops| - 1], location);
      ApplyElsewhere(ApplyAll(bs, ops[..|ops| - 1]), ops[|ops| - 1], location);
    }
  }

  /**
   In any run of the driver after a node is added, as long as no operation names its location: the node is
   still listed, and it is in the phase given by the number of tasklets alone.
   */
  lemma LeftAloneItBlinks(bs: seq<Blinker>, b: Blinker, ops: seq<Op>)
    requires forall i :: 0 <= i < |ops| ==> !Concerns(ops[i], b.location)
    ensures var now := BlinkerAt(ApplyAll([Fresh(b)] + bs, ops), b.location);
            now.Some? && InPhase(b, now.value, TickCount(ops) % (Lasts(b.onLength) + Lasts(b.offLength)))
  {
    hide TickedTimes, InPhase;
    LeftAloneItTicks([Fresh(b)] + bs, ops, b.location);
    PhaseAfter(b, TickCount(ops));
  }

  /** A node that has taken over another's timing ticks as the other does, and keeps its place and characters. */
  lemma {:induction false} TicksAlike(b: Blinker, s: Blinker, n: nat)
    ensures var r, q := TickedTimes(WithTiming(b, s), n), TickedTimes(s, n);
            && r.status == q.status && r.countdown == q.countdown
            && r.onLength == q.onLength && r.offLength == q.offLength
            && r.location == b.location && r.onChar == b.onChar && r.offChar == b.offChar
  {
    if n > 0 {
      TicksAlike(b, s, n - 1);
    }
  }

  /**
   After a sync, and for as long as no operation names either location, the two nodes are on at the same times,
   and the second still has its own place and characters.
   */
  lemma SyncedNodesBlinkTogether(bs: seq<Blinker>, from: uint16, to: uint16, ops: seq<Op>)
    requires BlinkerAt(bs, from).Some? && BlinkerAt(bs, to).Some? && from != to
    requires forall i :: 0 <= i < |ops| ==> !Concerns(ops[i], from) && !Concerns(ops[i], to)
    ensures var now := ApplyAll(Apply(bs, SyncFrom(from, to)), ops);
            var first, second, was := BlinkerAt(now, from), BlinkerAt(now, to), BlinkerAt(bs, to).value;
            && first.Some? && second.Some?
            && (IsOn(first.value) <==> IsOn(second.value)) && first.value.countdown == second.value.countdown
            && second.value.location == to
            && second.value.onChar == was.onChar && second.value.offChar == was.offChar
  {
    hide TickedTimes, ApplyAll;
    var next := Apply(bs, SyncFrom(from, to));
    var i, j := FirstAt(bs, from), FirstAt(bs, to);
    FirstAtIs(next, from, i);
    FirstAtIs(next, to, j);
    hide FirstAt;
    LeftAloneItTicks(next, ops, from);
    LeftAloneItTicks(next, ops, to);
    TicksAlike(bs[j], bs[i], TickCount(ops));
  }

  /** The operation keeps locations different, and a retimed blinker's phase is the one that is drawn. */
  predicate DrawsWhatItSets(bs: seq<Blinker>, op: Op) {
    match op
    case AddAt(b) => BlinkerAt(bs, b.location).None?
    case SyncFrom(from, to) =>
      var i, j := FirstAt(bs, from), FirstAt(bs, to);
      i < |bs| && j < |bs| ==> !IsOn(bs[i]) || bs[j].onChar == bs[j].offChar
    case _ => true
  }

  ghost predicate AllDrawWhatTheySet(bs: seq<Blinker>, ops: seq<Op>) {
    forall i :: 0 <= i < |ops| ==> DrawsWhatItSets(ApplyAll(bs, ops[..i]), ops[i])
  }

  lemma TickKeepsPlaces(bs: seq<Blinker>)
    ensures forall k :: 0 <= k < |bs| ==> TickedAll(bs)[k].location == bs[k].location
    ensures DistinctPlaces(bs) ==> DistinctPlaces(TickedAll(bs))
  {
  }

  lemma AddDraws(video: seq<byte>, bs: seq<Blinker>, b: Blinker)
    requires b.location < POOL_SIZE && VIDEO_BYTES <= |video| && InOrder(video, bs) && DrawsWhatItSets(bs, AddAt(b))
    ensures InOrder(video[2 * b.location := b.onChar], [Fresh(b)] + bs)
  {
  }

  lemma RemoveDraws(video: seq<byte>, bs: seq<Blinker>, location: uint16)
    requires InOrder(video, bs)
    ensures InOrder(video, Apply(bs, RemoveAt(location)))
  {
    var k := FirstAt(bs, location);
    if k < |bs| {
      WithoutDraws(video, bs, k);
    }
  }

  lemma WithoutDraws(video: seq<byte>, bs: seq<Blinker>, k: nat)
    requires InOrder(video, bs) && k < |bs|
    ensures InOrder(video, Without(bs, k))
  {
    hide Without, Glyph;
    forall i, j | 0 <= i < j < |Without(bs, k)|
      ensures Without(bs, k)[i].location != Without(bs, k)[j].location
    {
      WithoutAt(bs, k, i);
      WithoutAt(bs, k, j);
    }
    forall j | 0 <= j < |Without(bs, k)|
      ensures var b := Without(bs, k)[j]; 2 * b.location < |video| && video[2 * b.location] == Glyph(b)
    {
      WithoutAt(bs, k, j);
    }
  }

  lemma WithoutAt(bs: seq<Blinker>, k: nat, j: nat)
    requires k < |bs| && j < |Without(bs, k)|
    ensures |Without(bs, k)| == |bs| - 1 && Without(bs, k)[j] == bs[if j < k then j else j + 1]
  {
  }

  /** `sync` always draws the off character, so the screen stays right exactly when the copied phase is off. */
  lemma SyncDrawsExactlyWhenOff(video: seq<byte>, bs: seq<Blinker>, from: uint16, to: uint16)
    requires VIDEO_BYTES <= |video| && to < POOL_SIZE && InOrder(video, bs)
    requires FirstAt(bs, from) < |bs| && FirstAt(bs, to) < |bs|
    ensures InOrder(video[2 * to := bs[FirstAt(bs, to)].offChar], Synced(bs, from, to)) <==>
            DrawsWhatItSets(bs, SyncFrom(from, to))
  {
  }

  class Driver {
    const pool: array<Node>
    const video: array<byte>
    var head: int
    ghost var list: seq<nat>

    ghost predicate Valid()
      reads this, pool
    {
      pool.Length == POOL_SIZE && VIDEO_BYTES <= video.Length && ListOk(pool[..], head, list)
    }

    ghost function Contents(): seq<Blinker>
      requires Valid()
      reads this, pool
    {
      Blinkers(pool[..], list)
    }

    constructor (screen: array<byte>)
      requires VIDEO_BYTES <= screen.Length
      ensures Valid() && Contents() == [] && video == screen && fresh(pool)
    {
      pool := new Node[POOL_SIZE](_ => FREE);
      video := screen;
      head := -1;
      list := [];
    }

    method Poke(location: uint16, c: byte)
      requires location < POOL_SIZE && VIDEO_BYTES <= video.Length
      modifies video
      ensures video[..] == old(video[..])[2 * location := c]
    {
      video[2 * location] := c;
    }

    /** `mp1_malloc`: the first slot with location 0. */
    method Malloc() returns (slot: int)
      requires pool.Length == POOL_SIZE
      ensures slot == -1 <==> forall i :: 0 <= i < POOL_SIZE ==> pool[i].b.location != 0
      ensures slot != -1 ==>
                && 0 <= slot < POOL_SIZE && pool[slot].b.location == 0
                && forall i :: 0 <= i < slot ==> pool[i].b.location != 0
    {
      var i := 0;
      while i < POOL_SIZE
        invariant 0 <= i <= POOL_SIZE && forall j :: 0 <= j < i ==> pool[j].b.location != 0
      {
        if pool[i].b.location == 0 {
          return i;
        }
        i := i + 1;
      }
      return -1;
    }

    /** `mp1_find_helper`: the first node at a location. */
    method Find(location: uint16) returns (slot: int)
      requires Valid()
      ensures var k := FirstAt(Contents(), location); slot == if k < |list| then list[k] else -1
    {
      slot := head;
      ghost var k := 0;
      while slot != -1
        invariant 0 <= k <= |list| && slot == if k < |list| then list[k] else -1
        invariant forall i :: 0 <= i < k ==> Contents()[i].location != location
        decreases |list| - k
      {
        if pool[slot].b.location == location {
          FirstAtIs(Contents(), location, k);
          return;
        }
        slot := pool[slot].next;
        assert slot == After(list, k);
        k := k + 1;
      }
      FirstAtIs(Contents(), location, k);
    }

    method Add(b: Blinker) returns (r: int)
      requires Valid()
      modifies this, pool, video
      ensures r == 0 || r == -1
      ensures r == -1 <==> b.location >= POOL_SIZE || (|old(Contents())| == POOL_SIZE && NoZero(old(Contents())))
      ensures r == -1 ==> Valid() && Contents() == old(Contents()) && video[..] == old(video[..])
      ensures r == 0 ==> exists slot: nat ::
                  slot < POOL_SIZE && old(pool[slot]).b.location == 0
                  && (pool[..], head) == AddedAt(old(pool[..]), old(head), slot, b)
      ensures r == 0 ==> video[..] == old(video[..])[2 * b.location := b.onChar]
      ensures r == 0 && NoZero(old(Contents())) ==> Valid() && Contents() == [Fresh(b)] + old(Contents())
    {
      FullExactlyWhenNoSlotIsFree(pool[..], head, list);
      if b.location >= POOL_SIZE {
        return -1;
      }
      var slot := Malloc();
      if slot == -1 {
        return -1;
      }
      ghost var was, first := pool[..], head;
      if NoZero(Contents()) {
        FreeSlotIsNew(was, head, list, slot);
        AddKeepsList(was, head, list, slot, b);
      }
      pool[slot] := Node(Fresh(b), head);
      head := slot;
      list := [slot as nat] + list;
      assert (pool[..], head) == AddedAt(was, first, slot, b);
      Poke(b.location, b.onChar);
      return 0;
    }

    method Remove(location: uint16) returns (r: int)
      requires Valid()
      modifies this, pool
      ensures Valid()
      ensures var k := FirstAt(old(Contents()), location);
              if k < |old(Contents())| then r == 0 && Contents() == Without(old(Contents()), k)
              else r == -1 && Contents() == old(Contents())
    {
      var target := Find(location);
      if target == -1 {
        return -1;
      }
      Unlink(target, FirstAt(Contents(), location));
      return 0;
    }

    /** Takes the k-th node out of the list and frees its slot. */
    method Unlink(target: int, ghost k: nat)
      requires Valid() && k < |list| && target == list[k]
      modifies this, pool
      ensures Valid() && Contents() == Without(old(Contents()), k)
    {
      hide ListOk, Blinkers;
      ghost var was, first := pool[..], head;
      NodeFacts(was, head, list, k);
      HeadIsFirst(was, head, list);
      var prev := FindPrevious(target, k);
      var next := pool[target].next;
      if prev == -1 {
        head := next;
      } else {
        pool[prev] := pool[prev].(next := next);
      }
      pool[target] := FREE;
      RemoveKeepsList(was, first, list, k, pool[..], head);
      list := Without(list, k);
    }

    /** Adding at a location and then removing there gives the list back, whatever it held. */
    method AddThenRemove(b: Blinker)
      requires Valid() && b.location < POOL_SIZE && |Contents()| < POOL_SIZE && NoZero(Contents())
      modifies this, pool, video
      ensures Valid() && Contents() == old(Contents())
    {
      var added := Add(b);
      FirstAtIs(Contents(), b.location, 0);
      var removed := Remove(b.location);
    }

    /** The walk to the pointer that points at `target`: -1 stands for the head pointer. */
    method FindPrevious(target: int, ghost k: nat) returns (prev: int)
      requires Valid() && k < |list| && target == list[k]
      ensures prev == if k == 0 then -1 else list[k - 1]
      ensures prev != -1 ==> 0 <= prev < POOL_SIZE && prev != target
    {
      prev := -1;
      var at := head;
      ghost var j := 0;
      while at != target
        invariant 0 <= j <= k && at == list[j] && prev == if j == 0 then -1 else list[j - 1]
        decreases k - j
      {
        prev := at;
        assert pool[list[j]].next == After(list, j);
        at := pool[at].next;
        j := j + 1;
      }
    }

    /**
     `mp1_ioctl_sync`: the timing of the first node at `from` is copied to the first node at `to`, whose off
     character is drawn, whatever phase it is in now.
     */
    method Sync(from: uint16, to: uint16) returns (r: int)
      requires Valid()
      modifies pool, video
      ensures Valid() && Contents() == Synced(old(Contents()), from, to)
      ensures var bs := old(Contents());
              var i, j := FirstAt(bs, from), FirstAt(bs, to);
              if i < |bs| && j < |bs| then
                r == 0 && to < POOL_SIZE && video[..] == old(video[..])[2 * to := bs[j].offChar]
              else r == -1 && video[..] == old(video[..])
    {
      var source := Find(from);
      if source == -1 {
        return -1;
      }
      var target := Find(to);
      if target == -1 {
        return -1;
      }
      var b := WithTiming(pool[target].b, pool[source].b);
      Retime(target, b, FirstAt(Contents(), to));
      Poke(b.location, b.offChar);
      return 0;
    }

    /** Overwrites the k-th node with `b`, at the same location. */
    method Retime(target: int, b: Blinker, ghost k: nat)
      requires Valid() && k < |list| && target == list[k] && b.location == Contents()[k].location
      modifies pool
      ensures Valid() && Contents() == old(Contents())[k := b]
    {
      hide ListOk, Blinkers;
      ghost var was := pool[..];
      NodeFacts(was, head, list, k);
      UpdateKeepsList(was, head, list, k, b);
      pool[target] := pool[target].(b := b);
      assert pool[..] == was[target := Node(b, was[target].next)];
    }

    /** `mp1_rtc_tasklet`: every node of the list is ticked once, and a node that changes phase is redrawn. */
    method Tasklet()
      requires Valid()
      modifies pool, video
      ensures Valid() && Contents() == TickedAll(old(Contents()))
      ensures InOrder(old(video[..]), old(Contents())) ==> InOrder(video[..], Contents())
    {
      hide ListOk, Blinkers, Ticked;
      ghost var bs := Contents();
      var at := head;
      ghost var k := 0;
      HeadIsFirst(pool[..], head, list);
      while at != -1
        invariant 0 <= k <= |list| && at == (if k < |list| then list[k] else -1)
        invariant Valid() && |bs| == |list|
        invariant forall j :: 0 <= j < |list| ==> Contents()[j] == if j < k then Ticked(bs[j]) else bs[j]
        invariant DistinctPlaces(bs) && Displayed(old(video[..]), bs) ==> Displayed(video[..], Contents())
        decreases |list| - k
      {
        ghost var screen, cs := video[..], Contents();
        at := TickNode(at, k);
        if DistinctPlaces(bs) && Displayed(old(video[..]), bs) {
          RedrawKeepsDisplay(screen, video[..], cs, bs, k);
        }
        k := k + 1;
      }
      TickKeepsPlaces(bs);
    }

    /** One turn of the tasklet's loop, at the k-th node. */
    method TickNode(at: int, ghost k: nat) returns (next: int)
      requires Valid() && k < |list| && at == list[k]
      modifies pool, video
      ensures Valid() && next == After(list, k)
      ensures Contents() == old(Contents())[k := Ticked(old(Contents())[k])]
      ensures var b := old(Contents())[k];
              && 2 * b.location < video.Length
              && video[..] == if Expires(b) then old(video[..])[2 * b.location := Glyph(Ticked(b))] else old(video[..])
    {
      hide ListOk, Blinkers;
      ghost var before := pool[..];
      NodeFacts(before, head, list, k);
      var b := pool[at].b;
      var b' := b.(countdown := (b.countdown + 0xFFFF) % UINT16_SIZE);
      if !SignedPositive(b'.countdown) {
        if IsOn(b) {
          Poke(b.location, b.offChar);
          b' := b'.(countdown := b.offLength, status := b.status - 1);
        } else {
          Poke(b.location, b.onChar);
          b' := b'.(countdown := b.onLength, status := (b.status + 1) % UINT16_SIZE);
        }
      }
      UpdateKeepsList(before, head, list, k, b');
      next := pool[at].next;
      pool[at] := Node(b', next);
      assert pool[..] == before[at := Node(b', next)];
    }

    /** One operation of the driver. */
    method Do(op: Op)
      requires Valid() && (op.AddAt? ==> NoZero(Contents()))
      modifies this, pool, video
      ensures Valid() && Contents() == Apply(old(Contents()), op)
      ensures InOrder(old(video[..]), old(Contents())) && DrawsWhatItSets(old(Contents()), op) ==>
                InOrder(video[..], Contents())
    {
      hide ListOk, Blinkers, Ticked, FirstAt, InOrder, DrawsWhatItSets;
      ghost var screen, bs := video[..], Contents();
      ghost var orderly := InOrder(screen, bs) && DrawsWhatItSets(bs, op);
      var r := 0;
      match op {
        case Tick =>
          Tasklet();
        case AddAt(b) =>
          r := Add(b);
          if orderly && r == 0 {
            AddDraws(screen, bs, b);
          }
        case RemoveAt(location) =>
          r := Remove(location);
          if orderly {
            RemoveDraws(screen, bs, location);
          }
        case SyncFrom(from, to) =>
          r := Sync(from, to);
          if orderly && r == 0 {
            SyncDrawsExactlyWhenOff(screen, bs, from, to);
          }
      }
    }

    /** Any sequence of operations, in which nothing is added while a node at location 0 is listed. */
    method DoAll(ops: seq<Op>)
      requires Valid() && forall i :: 0 <= i < |ops| && ops[i].AddAt? ==> NoZero(ApplyAll(Contents(), ops[..i]))
      modifies this, pool, video
      ensures Valid() && Contents() == ApplyAll(old(Contents()), ops)
      ensures InOrder(old(video[..]), old(Contents())) && AllDrawWhatTheySet(old(Contents()), ops) ==>
                InOrder(video[..], Contents())
    {
      hide ListOk, Blinkers, Apply, InOrder, DrawsWhatItSets;
      var i := 0;
      ghost var bs := Contents();
      while i < |ops|
        invariant 0 <= i <= |ops| && Valid() && Contents() == ApplyAll(bs, ops[..i])
        invariant InOrder(old(video[..]), bs) && AllDrawWhatTheySet(bs, ops) ==> InOrder(video[..], Contents())
      {
        assert ops[..i + 1][..i] == ops[..i];
        Do(ops[i]);
        i := i + 1;
      }
      assert ops[..i] == ops;
    }
  }

  /**
   Two adds and one sync on a new driver: the second node is on, as the first is, and the screen shows its off
   character.
   */
  method SyncCanDrawTheWrongPhase(screen: array<byte>) returns (d: Driver)
    requires VIDEO_BYTES <= screen.Length
    modifies screen
    ensures d.Valid() && |d.Contents()| == 2
    ensures d.Contents()[0].location == 2 && IsOn(d.Contents()[0]) && d.Contents()[0].onChar != d.Contents()[0].offChar
    ensures screen[4] == d.Contents()[0].offChar && !Displayed(screen[..], d.Contents())
  {
    hide Blinkers, ListOk;
    d := new Driver(screen);
    var x, o := Blinker(1, 88, 120, 15, 15, 0, 0), Blinker(2, 79, 111, 15, 15, 0, 0);
    var r := d.Add(x);
    r := d.Add(o);
    ghost var bs := d.Contents();
    assert bs == [Fresh(o), Fresh(x)];
    FirstAtIs(bs, 1, 1);
    FirstAtIs(bs, 2, 0);
    r := d.Sync(1, 2);
  }

  lemma NodeFacts(pool: seq<Node>, head: int, list: seq<nat>, k: nat)
    requires ListOk(pool, head, list) && k < |list|
    ensures (forall j :: 0 <= j < |list| ==> list[j] < |pool|) && Blinkers(pool, list)[k] == pool[list[k]].b
    ensures list[k] < POOL_SIZE && pool[list[k]].b.location < POOL_SIZE && pool[list[k]].next == After(list, k)
  {
  }

  lemma HeadIsFirst(pool: seq<Node>, head: int, list: seq<nat>)
    requires ListOk(pool, head, list)
    ensures head == if list == [] then -1 else list[0]
  {
  }

  /** Changing a listed node without touching its location or link keeps the list. */
  lemma UpdateKeepsList(pool: seq<Node>, head: int, list: seq<nat>, k: nat, b: Blinker)
    requires ListOk(pool, head, list) && k < |list| && b.location == pool[list[k]].b.location
    ensures ListOk(pool[list[k] := Node(b, pool[list[k]].next)], head, list)
    ensures Blinkers(pool[list[k] := Node(b, pool[list[k]].next)], list) == Blinkers(pool, list)[k := b]
  {
  }

  /** Redrawing the k-th blinker when it changes phase leaves every blinker displayed, if places differ. */
  lemma RedrawKeepsDisplay(screen: seq<byte>, screen': seq<byte>, cs: seq<Blinker>, bs: seq<Blinker>, k: nat)
    requires DistinctPlaces(bs) && |cs| == |bs| && k < |bs| && Displayed(screen, cs)
    requires forall j :: 0 <= j < |bs| ==> cs[j] == if j < k then Ticked(bs[j]) else bs[j]
    requires screen' == if Expires(bs[k]) then screen[2 * bs[k].location := Glyph(Ticked(bs[k]))] else screen
    ensures Displayed(screen', cs[k := Ticked(bs[k])])
  {
    forall j | 0 <= j < |bs|
      ensures cs[j].location == bs[j].location
    {
    }
  }
}
