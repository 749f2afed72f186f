/**
 * What a group of addresses can reach: eight tried buckets for those that belong to it, and sixty-four new buckets
 * for whatever it announces. So no group fills the tables, whatever it sends and in whatever order.
 */
module AddrManGroups {
  import opened Basics
  import opened AddrManTables
  import opened AddrManBook
  import opened AddrManSteps
  import opened AddrManLaws

  /** The values of a function at the numbers below n. */
  ghost function Image(f: nat -> nat, n: nat): (s: set<nat>)
    ensures |s| <= n && forall i :: 0 <= i < n ==> f(i) in s
  {
    if n == 0 then {} else Image(f, n - 1) + {f(n - 1)}
  }

  ghost function TriedBuckets(h: Hashes, group: nat): (s: set<nat>)
    ensures |s| <= TRIED_BUCKETS_PER_GROUP
  {
    Image(i => h.triedHash(group, i) % TRIED_BUCKET_COUNT, TRIED_BUCKETS_PER_GROUP)
  }

  ghost function NewBuckets(h: Hashes, group: nat): (s: set<nat>)
    ensures |s| <= NEW_BUCKETS_PER_SOURCE_GROUP
  {
    Image(i => h.newHash(group, i) % NEW_BUCKET_COUNT, NEW_BUCKETS_PER_SOURCE_GROUP)
  }

  /** An address belongs into one of the tried buckets of its group, and into one of the new buckets of its source's. */
  lemma BucketsOfGroup(h: Hashes, a: Service, source: NetAddr)
    ensures h.Tried(a) in TriedBuckets(h, h.group(a.net))
    ensures h.New(a, source) in NewBuckets(h, h.group(source))
  {
    hide TriedBuckets, NewBuckets;
    TriedBucketOf(h, h.group(a.net), h.keyHash(a) % TRIED_BUCKETS_PER_GROUP);
    NewBucketOf(h, h.group(source), h.groupsHash(h.group(a.net), h.group(source)) % NEW_BUCKETS_PER_SOURCE_GROUP);
  }

  lemma TriedBucketOf(h: Hashes, group: nat, i: nat)
    requires i < TRIED_BUCKETS_PER_GROUP
    ensures h.triedHash(group, i) % TRIED_BUCKET_COUNT in TriedBuckets(h, group)
  {
    hide Image;
    var f: nat -> nat := k => h.triedHash(group, k) % TRIED_BUCKET_COUNT;
    assert f(i) in Image(f, TRIED_BUCKETS_PER_GROUP);
  }

  lemma NewBucketOf(h: Hashes, group: nat, i: nat)
    requires i < NEW_BUCKETS_PER_SOURCE_GROUP
    ensures h.newHash(group, i) % NEW_BUCKET_COUNT in NewBuckets(h, group)
  {
    hide Image;
    var f: nat -> nat := k => h.newHash(group, k) % NEW_BUCKET_COUNT;
    assert f(i) in Image(f, NEW_BUCKETS_PER_SOURCE_GROUP);
  }

  /** All addresses of a group that one source group announces belong into the same new bucket. */
  lemma OneBucketPerPair(h: Hashes, a: Service, b: Service, source: NetAddr, source': NetAddr)
    requires h.group(a.net) == h.group(b.net) && h.group(source) == h.group(source')
    ensures h.New(a, source) == h.New(b, source')
  {
  }

  /** Two addresses have the same tried slot exactly if buckets and positions agree, as the hashes say. */
  lemma SameTriedSlot(h: Hashes, a: Service, b: Service)
    ensures TriedSlot(h, a) == TriedSlot(h, b) <==>
              && h.Tried(a) == h.Tried(b)
              && h.positionHash(false, h.Tried(a), a) % 64 == h.positionHash(false, h.Tried(b), b) % 64
  {
  }

  /** Two addresses from any sources have the same new slot exactly if buckets and positions agree. */
  lemma SameNewSlot(h: Hashes, a: Service, source: NetAddr, b: Service, source': NetAddr)
    ensures NewSlot(h, a, source) == NewSlot(h, b, source') <==>
              && h.New(a, source) == h.New(b, source')
              && h.positionHash(true, h.New(a, source), a) % 64 == h.positionHash(true, h.New(b, source'), b) % 64
  {
  }

  /** The slots of some buckets. */
  ghost function SlotsIn(buckets: set<nat>): (s: set<Slot>)
    ensures forall l: Slot :: l in s <==> l.bucket in buckets && l.pos < BUCKET_SIZE
  {
    set b, i | b in buckets && 0 <= i < BUCKET_SIZE :: Slot(b, i)
  }

  lemma {:induction false} SlotsCounted(buckets: set<nat>)
    ensures |SlotsIn(buckets)| == |buckets| * BUCKET_SIZE
  {
    if buckets == {} {
      assert SlotsIn(buckets) == {};
    } else {
      var b := Element(buckets);
      SlotsCounted(buckets - {b});
      RowCounted(b, BUCKET_SIZE);
      assert SlotsIn(buckets) == SlotsIn(buckets - {b}) + RowOf(b, BUCKET_SIZE);
    }
  }

  ghost function RowOf(b: nat, n: nat): (s: set<Slot>)
    ensures forall l: Slot :: l in s <==> l.bucket == b && l.pos < n
  {
    if n == 0 then {} else RowOf(b, n - 1) + {Slot(b, n - 1)}
  }

  lemma {:induction false} RowCounted(b: nat, n: nat)
    ensures |RowOf(b, n)| == n
  {
    if n > 0 { RowCounted(b, n - 1); }
  }

  lemma {:induction false} Included<T>(s: set<T>, t: set<T>)
    requires s <= t
    ensures |s| <= |t|
  {
    if s != {} {
      var x := Element(s);
      Included(s - {x}, t - {x});
    }
  }

  // ---- Tried -----------------------------------------------------------------------------------------------------

  /** The tried slots in which addresses of a group stand. */
  ghost function TriedOf(h: Hashes, book: Book, group: nat): set<Slot> {
    set l | l in book.tried && h.group(book.tried[l].net) == group
  }

  /** In every manager, the addresses of one group have at most 512 of the 16384 tried slots. */
  lemma GroupInTried(h: Hashes, s: State, group: nat)
    requires Inv(h, s, {}, 0)
    ensures Shaped(s) && |TriedOf(h, BookOf(s), group)| <= TRIED_BUCKETS_PER_GROUP * BUCKET_SIZE
  {
    hide Inv, BookOf, TriedBuckets;
    Shape(h, s);
    EveryAddressPlaced(h, s);
    var book, buckets := BookOf(s), TriedBuckets(h, group);
    forall l | l in TriedOf(h, book, group) ensures l in SlotsIn(buckets) {
      BucketsOfGroup(h, book.tried[l], 0);
      InTable(s, l);
    }
    Included(TriedOf(h, book, group), SlotsIn(buckets));
    SlotsCounted(buckets);
  }

  // ---- New -------------------------------------------------------------------------------------------------------

  datatype Telling = Telling(a: Announced, source: NetAddr, penalty: int, now: int, draw: nat)

  /** Announcements one after the other. */
  ghost function Told(h: Hashes, book: Book, tales: seq<Telling>): Book {
    if tales == [] then book
    else
      var n := |tales| - 1;
      var t := tales[n];
      Add(h, Told(h, book, tales[..n]), t.a, t.source, t.penalty, t.now, t.draw)
  }

  /** Two placements agree outside of some buckets. */
  ghost predicate SameOutside(p: Placement, q: Placement, buckets: set<nat>) {
    forall l: Slot :: l.bucket !in buckets ==> (l in p <==> l in q) && (l in p ==> p[l] == q[l])
  }

  lemma OfferTouches(h: Hashes, book: Book, a: Service, s: Slot, now: int)
    ensures SameOutside(book.fresh', Offer(h, book, a, s, now).fresh', {s.bucket})
  {
    hide Yields, References;
  }

  lemma AddTouches(h: Hashes, book: Book, t: Telling)
    ensures var after := Add(h, book, t.a, t.source, t.penalty, t.now, t.draw);
            && after.tried == book.tried
            && SameOutside(book.fresh', after.fresh', NewBuckets(h, h.group(t.source)))
  {
    hide Offer, Earns, ToU32, AllServices, Refreshed, NewBuckets, Hashes.New, Hashes.NewPos;
    BucketsOfGroup(h, t.a.addr, t.source);
    AddKeepsTried(h, book, t.a, t.source, t.penalty, t.now, t.draw);
    var p := if t.a.addr.net == t.source then 0 else t.penalty;
    var slot := NewSlot(h, t.a.addr, t.source);
    var e := if t.a.addr !in book.stats then Stats(ToU32(Max0(t.a.nTime - p)), t.a.nServices, t.source, 0, 0, 0, 0)
             else Refreshed(book.stats[t.a.addr], t.a, p, t.now);
    OfferTouches(h, book.(stats := book.stats[t.a.addr := e]), t.a.addr, slot, t.now);
  }

  /**
   * Whatever addresses one group announces, as often as it likes: the tried table stays, and the new table changes in
   * at most 64 of its 1024 buckets, the same ones every time.
   */
  lemma {:induction false} GroupInNew(h: Hashes, book: Book, tales: seq<Telling>, group: nat)
    requires forall i :: 0 <= i < |tales| ==> h.group(tales[i].source) == group
    ensures var after := Told(h, book, tales);
            after.tried == book.tried && SameOutside(book.fresh', after.fresh', NewBuckets(h, group))
    ensures |SlotsIn(NewBuckets(h, group))| <= NEW_BUCKETS_PER_SOURCE_GROUP * BUCKET_SIZE
  {
    hide Add, NewBuckets;
    SlotsCounted(NewBuckets(h, group));
    if tales != [] {
      var n := |tales| - 1;
      GroupInNew(h, book, tales[..n], group);
      AddTouches(h, Told(h, book, tales[..n]), tales[n]);
    }
  }
}
