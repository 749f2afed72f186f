/**
 * A stack of write-back coin caches over a database. Each cache overlays the view below it;
 * the DIRTY and FRESH flags decide what a flush writes and what it may forget.
 */
module Coins {

  datatype OutPoint = OutPoint(txid: nat, n: nat)

  type Script = seq<nat>

  datatype TxOut = TxOut(value: int, script: Script)

  /** A UTXO entry; a nulled-out output (value -1) stands for a spent coin. */
  datatype Coin = Coin(out: TxOut, height: nat, isCoinBase: bool)
  {
    predicate IsSpent() { out.value == -1 }
  }

  const CLEARED := Coin(TxOut(-1, []), 0, false)

  const OP_RETURN := 0x6a
  const MAX_SCRIPT_SIZE := 10000

  predicate IsUnspendable(script: Script) {
    (|script| > 0 && script[0] == OP_RETURN) || |script| > MAX_SCRIPT_SIZE
  }

  /** Scripts that begin with OP_RETURN or are longer than 10000 bytes can never be satisfied, and only those. */
  lemma UnspendableScripts(script: Script)
    ensures |script| <= 10000 && (script == [] || script[0] != 0x6a) ==> !IsUnspendable(script)
    ensures IsUnspendable([0x6a] + script)
    ensures |script| > 10000 ==> IsUnspendable(script)
  {
  }

  datatype Entry = Entry(coin: Coin, isDirty: bool, isFresh: bool)

  type CoinsMap = map<OutPoint, Entry>
  type Utxo = map<OutPoint, Coin>

  type BlockHash = nat
  const NULL_HASH: BlockHash := 0

  /** Memory used by a script; an empty script uses none. */
  type ScriptUsage = f: Script -> nat | f([]) == 0 witness (s: Script) => 0

  // ---- What a cache shows -------------------------------------------------------------------

  predicate Shows(below: Utxo, cache: CoinsMap, op: OutPoint) {
    if op in cache then !cache[op].coin.IsSpent() else op in below
  }

  ghost function Overlay(below: Utxo, cache: CoinsMap): Utxo {
    map op | op in below.Keys + cache.Keys && Shows(below, cache, op) ::
      if op in cache then cache[op].coin else below[op]
  }

  /** FRESH: nothing unspent below. Not DIRTY: the same coin below. Spent: not yet told below. */
  predicate EntryOk(below: Utxo, op: OutPoint, e: Entry) {
    && (e.isFresh ==> op !in below)
    && (!e.isDirty ==> op in below && below[op] == e.coin)
    && (e.coin.IsSpent() ==> e.isDirty && !e.isFresh)
  }

  ghost predicate FlagsOk(below: Utxo, cache: CoinsMap) {
    forall op :: op in cache ==> EntryOk(below, op, cache[op])
  }

  ghost predicate AllUnspent(m: Utxo) {
    forall op :: op in m ==> !m[op].IsSpent()
  }

  /**
   * Of the eight combinations, exactly these four go with some view of unspent coins below. The header
   * lists a fifth, spent and FRESH and not DIRTY, for a spent coin fetched from below; none is ever fetched.
   */
  lemma FlagCombinations(op: OutPoint, e: Entry)
    ensures (exists below: Utxo :: AllUnspent(below) && EntryOk(below, op, e)) <==>
              || (!e.coin.IsSpent() && e.isFresh && e.isDirty)
              || (!e.coin.IsSpent() && !e.isFresh && e.isDirty)
              || (!e.coin.IsSpent() && !e.isFresh && !e.isDirty)
              || (e.coin.IsSpent() && !e.isFresh && e.isDirty)
  {
    if !e.coin.IsSpent() && !e.isFresh && !e.isDirty {
      var below: Utxo := map[op := e.coin];
      assert AllUnspent(below) && EntryOk(below, op, e);
    }
    if (e.isDirty && !e.isFresh) || (!e.coin.IsSpent() && e.isFresh && e.isDirty) {
      var below: Utxo := map[];
      assert AllUnspent(below) && EntryOk(below, op, e);
    }
  }

  lemma OverlayUnspent(below: Utxo, cache: CoinsMap)
    requires AllUnspent(below)
    ensures AllUnspent(Overlay(below, cache))
  {
  }

  // ---- Memory usage -----------------------------------------------------------------------------

  ghost function TotalUsage(u: ScriptUsage, m: CoinsMap): nat
    decreases |m|
  {
    if m == map[] then 0
    else
      var op :| op in m;
      u(m[op].coin.out.script) + TotalUsage(u, m - {op})
  }

  lemma {:induction false} UsageWithout(u: ScriptUsage, m: CoinsMap, op: OutPoint)
    requires op in m
    ensures TotalUsage(u, m) == u(m[op].coin.out.script) + TotalUsage(u, m - {op})
    decreases |m|
  {
    var first :| first in m && TotalUsage(u, m) == u(m[first].coin.out.script) + TotalUsage(u, m - {first});
    if first != op {
      UsageWithout(u, m - {first}, op);
      UsageWithout(u, m - {op}, first);
      assert m - {first} - {op} == m - {op} - {first};
    }
  }

  lemma UsageUpdated(u: ScriptUsage, m: CoinsMap, op: OutPoint, e: Entry)
    ensures TotalUsage(u, m[op := e])
         == TotalUsage(u, m) - (if op in m then u(m[op].coin.out.script) else 0) + u(e.coin.out.script)
  {
    UsageWithout(u, m[op := e], op);
    assert m[op := e] - {op} == m - {op};
    if op in m {
      UsageWithout(u, m, op);
    } else {
      assert m - {op} == m;
    }
  }

  // ---- Changing one entry ---------------------------------------------------------------------

  lemma SetEntry(below: Utxo, cache: CoinsMap, op: OutPoint, e: Entry)
    ensures Overlay(below, cache[op := e]) ==
              if e.coin.IsSpent() then Overlay(below, cache) - {op} else Overlay(below, cache)[op := e.coin]
  {
  }

  lemma DropEntry(below: Utxo, cache: CoinsMap, op: OutPoint)
    requires FlagsOk(below, cache)
    ensures FlagsOk(below, cache - {op})
    ensures op !in below ==> Overlay(below, cache - {op}) == Overlay(below, cache) - {op}
    ensures op in cache && !cache[op].isDirty ==> Overlay(below, cache - {op}) == Overlay(below, cache)
  {
  }

  /** Forgetting an entry when its coin is spent spends the coin exactly when nothing is below it. */
  lemma ForgettingSpends(below: Utxo, cache: CoinsMap, op: OutPoint)
    requires op in cache
    ensures Overlay(below, cache - {op}) == Overlay(below, cache) - {op} <==> op !in below
  {
    assert op in Overlay(below, cache - {op}) <==> op in below;
    if op !in below {
      assert Overlay(below, cache - {op}) == Overlay(below, cache) - {op};
    }
  }

  lemma FetchEntry(below: Utxo, cache: CoinsMap, op: OutPoint)
    requires FlagsOk(below, cache) && op !in cache && op in below && !below[op].IsSpent()
    ensures FlagsOk(below, cache[op := Entry(below[op], false, false)])
    ensures Overlay(below, cache[op := Entry(below[op], false, false)]) == Overlay(below, cache)
  {
  }

  lemma EmptyOverlay(below: Utxo)
    ensures Overlay(below, map[]) == below
  {
  }

  // ---- The database at the bottom -------------------------------------------------------------------

  /** What a batch leaves: every dirty entry is written or erased. */
  ghost function Applied(db: Utxo, batch: CoinsMap): Utxo {
    map op | op in db.Keys + batch.Keys && (if op in batch &&
        batch[op].isDirty then !batch[op].coin.IsSpent() else op in db) ::
      if op in batch && batch[op].isDirty then batch[op].coin else db[op]
  }

  /** Under correct flags, writing the dirty entries alone gives all the cache showed. */
  lemma AppliedIsOverlay(db: Utxo, batch: CoinsMap)
    requires FlagsOk(db, batch) && AllUnspent(db)
    ensures Applied(db, batch) == Overlay(db, batch)
  {
  }

  lemma AppliedOneMore(db: Utxo, done: CoinsMap, op: OutPoint, e: Entry)
    requires op !in done
    ensures Applied(db, done[op := e]) ==
              if !e.isDirty then Applied(db, done)
              else if e.coin.IsSpent() then Applied(db, done) - {op}
              else Applied(db, done)[op := e.coin]
  {
  }

  /** Each entry of the batch is either still to do or done. */
  ghost predicate Partition(batch: CoinsMap, rest: CoinsMap, done: CoinsMap) {
    && (forall op :: op in batch <==> op in rest || op in done)
    && (forall op :: op in rest ==> op !in done && rest[op] == batch[op])
    && (forall op :: op in done ==> done[op] == batch[op])
  }

  lemma MoveEntry(batch: CoinsMap, rest: CoinsMap, done: CoinsMap, op: OutPoint)
    requires Partition(batch, rest, done) && op in rest
    ensures Partition(batch, rest - {op}, done[op := rest[op]])
  {
  }

  lemma AllDone(batch: CoinsMap, done: CoinsMap)
    requires Partition(batch, map[], done)
    ensures done == batch
  {
  }

  class CoinsViewDB {
    var coins: Utxo
    var best: BlockHash

    constructor (coins: Utxo, best: BlockHash)
      ensures this.coins == coins && this.best == best
    {
      this.coins, this.best := coins, best;
    }

    method GetCoin(op: OutPoint) returns (found: bool, coin: Coin)
      ensures found <==> op in coins
      ensures found ==> coin == coins[op]
    {
      if op in coins {
        return true, coins[op];
      }
      return false, CLEARED;
    }

    method WriteEntry(op: OutPoint, e: Entry)
      modifies this
      ensures best == old(best)
      ensures coins == if !e.isDirty then old(coins) else if e.coin.IsSpent() then old(coins) - {op}
                else old(coins)[op := e.coin]
    {
      if e.isDirty {
        if e.coin.IsSpent() {
          coins := coins - {op};
        } else {
          coins := coins[op := e.coin];
        }
      }
    }

    method BatchWrite(batch: CoinsMap, hashBlock: BlockHash)
      requires hashBlock != NULL_HASH
      modifies this
      ensures coins == Applied(old(coins), batch) && best == hashBlock
    {
      var rest := batch;
      ghost var done: CoinsMap := map[];
      assert Applied(coins, done) == coins;
      while rest != map[]
        invariant Partition(batch, rest, done)
        invariant coins == Applied(old(coins), done)
        decreases rest.Keys
      {
        var op :| op in rest;
        AppliedOneMore(old(coins), done, op, rest[op]);
        MoveEntry(batch, rest, done, op);
        WriteEntry(op, rest[op]);
        done := done[op := rest[op]];
        rest := rest - {op};
      }
      AllDone(batch, done);
      best := hashBlock;
    }
  }

  // ---- Merging a batch into a cache -----------------------------------------------------------------

  /** What one entry of a child does to its parent's view. */
  ghost function Told(view: Utxo, op: OutPoint, e: Entry): Utxo {
    if !e.isDirty then view else if e.coin.IsSpent() then view - {op} else view[op := e.coin]
  }

  lemma OverlayOneMore(view: Utxo, done: CoinsMap, op: OutPoint, e: Entry)
    requires op !in done && EntryOk(view, op, e) && AllUnspent(view)
    ensures Overlay(view, done[op := e]) == Told(Overlay(view, done), op, e)
  {
    SetEntry(view, done, op, e);
  }

  /** Telling one entry leaves the remaining flags right. */
  lemma FlagsElsewhere(view: Utxo, rest: CoinsMap, op: OutPoint, e: Entry)
    requires FlagsOk(view, rest)
    ensures FlagsOk(Told(view, op, e), rest - {op})
  {
  }

  lemma OverlayAt(view: Utxo, done: CoinsMap, op: OutPoint, e: Entry)
    requires op !in done
    ensures EntryOk(Overlay(view, done), op, e) <==> EntryOk(view, op, e)
  {
  }

  ghost predicate SameAt(cache: CoinsMap, cache': CoinsMap, op: OutPoint) {
    (op in cache <==> op in cache') && (op in cache ==> cache[op] == cache'[op])
  }

  ghost predicate SameBut(cache: CoinsMap, cache': CoinsMap, op: OutPoint) {
    forall x :: x != op ==> SameAt(cache, cache', x)
  }

  /** A dirty entry of a child claims that its coin is not below, and the parent has the coin unspent. */
  predicate Misapplied(cache: CoinsMap, op: OutPoint, e: Entry) {
    e.isDirty && e.isFresh && op in cache && !cache[op].coin.IsSpent()
  }

  /** The cache is as it was at every entry still to do, and no entry done so far was misapplied. */
  ghost predicate Untouched(was: CoinsMap, cache: CoinsMap, rest: CoinsMap, done: CoinsMap) {
    && (forall op :: op in rest ==> SameAt(was, cache, op))
    && (forall op :: op in done ==> !Misapplied(was, op, done[op]))
  }

  lemma OneMoreMerged(was: CoinsMap, cache: CoinsMap, cache': CoinsMap, rest: CoinsMap, done: CoinsMap, op: OutPoint)
    requires Untouched(was, cache, rest, done) && op in rest && SameBut(cache, cache', op)
    ensures Misapplied(was, op, rest[op]) <==> Misapplied(cache, op, rest[op])
    ensures !Misapplied(was, op, rest[op]) ==> Untouched(was, cache', rest - {op}, done[op := rest[op]])
  {
    assert SameAt(was, cache, op);
    forall x | x in rest - {op} ensures SameAt(was, cache', x) {
      assert SameAt(was, cache, x) && SameAt(cache, cache', x);
    }
  }

  // ---- A cache ----------------------------------------------------------------------------------------

  class CoinsViewCache {
    /** The cache below, if any; otherwise the database is below. */
    const base: CoinsViewCache?
    const db: CoinsViewDB
    const usageOf: ScriptUsage
    var cacheCoins: CoinsMap
    var cachedCoinsUsage: nat
    var hashBlock: BlockHash

    ghost const depth: nat
    ghost const repr: set<object>

    /** The stack is well founded: no cache stands above itself. */
    ghost predicate Stacked()
      decreases depth
    {
      if base == null then
        repr == {this, db}
      else
        && base.depth < depth
        && repr == base.repr + {this} && this !in base.repr && db == base.db
        && base.Stacked()
    }

    ghost predicate BelowValid()
      requires Stacked()
      reads repr - {this}
      decreases depth, 0
    {
      if base == null then AllUnspent(db.coins) else base.Valid()
    }

    ghost predicate Valid()
      requires Stacked()
      reads repr
      decreases depth, 1
    {
      && BelowValid()
      && FlagsOk(Below(), cacheCoins)
      && cachedCoinsUsage == TotalUsage(usageOf, cacheCoins)
    }

    /** Everything but the flags: what holds even of a batch with misapplied flags. */
    ghost predicate Accounted()
      requires Stacked()
      reads repr
    {
      BelowValid() && cachedCoinsUsage == TotalUsage(usageOf, cacheCoins)
    }

    /** The view this cache reads from. */
    ghost function Below(): Utxo
      requires Stacked()
      reads repr - {this}
      decreases depth, 0
    {
      if base == null then db.coins else base.View()
    }

    ghost function View(): Utxo
      requires Stacked()
      reads repr
      decreases depth, 1
    {
      Overlay(Below(), cacheCoins)
    }

    lemma ViewUnspent()
      requires Stacked() && Valid()
      ensures AllUnspent(Below()) && AllUnspent(View())
      decreases depth
    {
      if base != null { base.ViewUnspent(); }
      OverlayUnspent(Below(), cacheCoins);
    }

    /** The views of the whole stack, the database first. */
    ghost function Views(): (vs: seq<Utxo>)
      requires Stacked()
      ensures |vs| >= 2 && vs[|vs| - 1] == View() && vs[|vs| - 2] == Below()
      reads repr
      decreases depth, 1
    {
      ViewsBelow() + [View()]
    }

    ghost function ViewsBelow(): (vs: seq<Utxo>)
      requires Stacked()
      ensures |vs| >= 1 && vs[|vs| - 1] == Below()
      reads repr - {this}
      decreases depth, 0
    {
      if base == null then [db.coins] else base.Views()
    }

    /** The block hash this view stands for. */
    ghost function BestBlock(): BlockHash
      requires Stacked()
      reads repr
      decreases depth, 1
    {
      if hashBlock != NULL_HASH then hashBlock else BestBlockBelow()
    }

    ghost function BestBlockBelow(): BlockHash
      requires Stacked()
      reads repr - {this}
      decreases depth, 0
    {
      if base == null then db.best else base.BestBlock()
    }

    constructor OnDatabase(db: CoinsViewDB, usageOf: ScriptUsage)
      requires AllUnspent(db.coins)
      ensures Stacked() && Valid() && base == null && this.db == db && this.usageOf == usageOf
      ensures fresh(repr - {db}) && Views() == [db.coins, db.coins] && cacheCoins == map[]
    {
      this.base, this.db, this.usageOf := null, db, usageOf;
      cacheCoins, cachedCoinsUsage, hashBlock := map[], 0, NULL_HASH;
      depth, repr := 0, {this, db};
      new;
      EmptyOverlay(db.coins);
    }

    constructor OnCache(base: CoinsViewCache)
      requires base.Stacked() && base.Valid()
      ensures Stacked() && Valid() && this.base == base && usageOf == base.usageOf
      ensures repr == base.repr + {this} && Views() == base.Views() + [base.View()] && cacheCoins == map[]
    {
      this.base, this.db, this.usageOf := base, base.db, base.usageOf;
      cacheCoins, cachedCoinsUsage, hashBlock := map[], 0, NULL_HASH;
      depth, repr := base.depth + 1, base.repr + {this};
      new;
      EmptyOverlay(base.View());
    }

    // ---- Reading ----------------------------------------------------------------------------------

    /** Returns whether the cache now has an entry; looking up fills this cache and those below. */
    method FetchCoin(op: OutPoint) returns (present: bool)
      requires Stacked() && Valid()
      modifies repr
      ensures Valid() && View() == old(View()) && Below() == old(Below()) && ViewsBelow() == old(ViewsBelow())
      ensures present <==> op in old(cacheCoins) || op in View()
      ensures present <==> op in cacheCoins
      ensures op in old(cacheCoins) || !present ==> cacheCoins == old(cacheCoins)
      ensures op !in old(cacheCoins) && present ==>
                op in Below() && cacheCoins == old(cacheCoins)[op := Entry(Below()[op], false, false)]
      decreases depth, 1
    {
      if op in cacheCoins {
        return true;
      }
      var found, tmp := ReadBelow(op);
      if !found {
        return false;
      }
      Remember(op, tmp);
      return true;
    }

    /** A coin fetched from below is kept as a clean entry. */
    method Remember(op: OutPoint, coin: Coin)
      requires Stacked() && Valid() && op !in cacheCoins && op in Below() && coin == Below()[op]
      modifies this
      ensures Valid() && View() == old(View()) && Below() == old(Below()) && ViewsBelow() == old(ViewsBelow())
      ensures cacheCoins == old(cacheCoins)[op := Entry(coin, false, false)] && hashBlock == old(hashBlock)
    {
      ViewUnspent();
      FetchEntry(Below(), cacheCoins, op);
      Store(op, Entry(coin, false, coin.IsSpent()));
    }

    /** Sets an entry whose old memory usage has been subtracted already. */
    method Store(op: OutPoint, e: Entry)
      requires Stacked() && BelowValid()
      requires cachedCoinsUsage + (if op in cacheCoins then usageOf(cacheCoins[op].coin.out.script) else 0)
            == TotalUsage(usageOf, cacheCoins)
      modifies this
      ensures cacheCoins == old(cacheCoins)[op := e] && hashBlock == old(hashBlock) && Below() == old(Below())
      ensures Accounted() && (old(FlagsOk(Below(), cacheCoins)) ==> (Valid() <==> EntryOk(Below(), op, e)))
      ensures View() == if e.coin.IsSpent() then old(View()) - {op} else old(View())[op := e.coin]
    {
      SetEntry(Below(), cacheCoins, op, e);
      UsageUpdated(usageOf, cacheCoins, op, e);
      cacheCoins := cacheCoins[op := e];
      cachedCoinsUsage := cachedCoinsUsage + usageOf(e.coin.out.script);
      assert FlagsOk(Below(), cacheCoins) ==> EntryOk(Below(), op, cacheCoins[op]);
    }

    /** Erases an entry whose memory usage has been subtracted already. */
    method EraseEntry(op: OutPoint)
      requires Stacked() && BelowValid() && op in cacheCoins
      requires cachedCoinsUsage + usageOf(cacheCoins[op].coin.out.script) == TotalUsage(usageOf, cacheCoins)
      modifies this
      ensures cacheCoins == old(cacheCoins) - {op} && hashBlock == old(hashBlock) && Below() == old(Below())
      ensures Accounted()
      ensures old(FlagsOk(Below(), cacheCoins)) ==>
                && Valid()
                && (old(cacheCoins)[op].isFresh ==> View() == old(View()) - {op})
                && (!old(cacheCoins)[op].isDirty ==> View() == old(View()))
    {
      if FlagsOk(Below(), cacheCoins) { DropEntry(Below(), cacheCoins, op); }
      UsageWithout(usageOf, cacheCoins, op);
      cacheCoins := cacheCoins - {op};
    }

    /** base->GetCoin. */
    method ReadBelow(op: OutPoint) returns (found: bool, coin: Coin)
      requires Stacked() && Valid()
      modifies repr - {this}
      ensures Valid() && Below() == old(Below()) && ViewsBelow() == old(ViewsBelow())
      ensures found <==> op in Below()
      ensures found ==> coin == Below()[op]
      decreases depth, 0
    {
      if base == null {
        found, coin := db.GetCoin(op);
      } else {
        found, coin := base.GetCoin(op);
      }
    }

    method GetCoin(op: OutPoint) returns (found: bool, coin: Coin)
      requires Stacked() && Valid()
      modifies repr
      ensures Valid() && View() == old(View()) && Below() == old(Below()) && ViewsBelow() == old(ViewsBelow())
      ensures found <==> op in View()
      ensures found ==> coin == View()[op]
      decreases depth, 2
    {
      var present := FetchCoin(op);
      if !present {
        return false, CLEARED;
      }
      coin := cacheCoins[op].coin;
      found := !coin.IsSpent();
    }

    method HaveCoin(op: OutPoint) returns (found: bool)
      requires Stacked() && Valid()
      modifies repr
      ensures Valid() && View() == old(View()) && Below() == old(Below()) && ViewsBelow() == old(ViewsBelow())
      ensures found <==> op in View()
    {
      var present := FetchCoin(op);
      found := present && !cacheCoins[op].coin.IsSpent();
    }

    /** The coin, or an empty one when there is none to spend. */
    method AccessCoin(op: OutPoint) returns (coin: Coin)
      requires Stacked() && Valid()
      modifies repr
      ensures Valid() && View() == old(View()) && Below() == old(Below()) && ViewsBelow() == old(ViewsBelow())
      ensures if op in View() then coin == View()[op] else coin.IsSpent()
    {
      var present := FetchCoin(op);
      coin := if present then cacheCoins[op].coin else CLEARED;
    }

    method HaveCoinInCache(op: OutPoint) returns (found: bool)
      requires Stacked() && Valid()
      ensures found <==> op in cacheCoins && op in View()
    {
      found := op in cacheCoins && !cacheCoins[op].coin.IsSpent();
    }

    // ---- Writing ----------------------------------------------------------------------------------

    /**
     * Adds a coin. `thrown` stands for the logic_error about overwriting an unspent coin.
     * The flags stay right exactly when the caller told the truth about overwriting.
     */
    method AddCoin(op: OutPoint, coin: Coin, possibleOverwrite: bool) returns (thrown: bool)
      requires Stacked() && Valid() && !coin.IsSpent()
      modifies this
      ensures hashBlock == old(hashBlock) && Below() == old(Below())
      ensures IsUnspendable(coin.out.script) ==> !thrown && Valid() && View() == old(View())
      ensures thrown <==>
                && !IsUnspendable(coin.out.script) && !possibleOverwrite
                && op in old(cacheCoins) && op in old(View())
      ensures thrown ==>
                && cacheCoins == old(cacheCoins)
                && cachedCoinsUsage == old(cachedCoinsUsage) - usageOf(old(cacheCoins)[op].coin.out.script)
      ensures IsUnspendable(coin.out.script) ==> cacheCoins == old(cacheCoins)
      ensures !thrown && !IsUnspendable(coin.out.script) ==>
                var was, overwrites := op in old(cacheCoins), possibleOverwrite;
                cacheCoins == old(cacheCoins)[op := Entry(coin, true,
                    (was && old(cacheCoins)[op].isFresh) || (!overwrites && !(was && old(cacheCoins)[op].isDirty)))]
      ensures !thrown && !IsUnspendable(coin.out.script) ==> View() == old(View())[op := coin]
      ensures !thrown && !IsUnspendable(coin.out.script) ==> (Valid() <==> possibleOverwrite || op !in old(View()))
    {
      if IsUnspendable(coin.out.script) {
        return false;
      }
      var e := if op in cacheCoins then cacheCoins[op] else Entry(CLEARED, false, false);
      if op in cacheCoins {
        UsageWithout(usageOf, cacheCoins, op);
        cachedCoinsUsage := cachedCoinsUsage - usageOf(e.coin.out.script);
      }
      var markFresh := false;
      if !possibleOverwrite {
        if !e.coin.IsSpent() {
          return true;
        }
        markFresh := !e.isDirty;
      }
      Store(op, Entry(coin, true, e.isFresh || markFresh));
      return false;
    }

    /**
     * Spends a coin. The result says whether the cache had or could fetch an entry, which is also
     * true of an entry that was spent before.
     */
    method SpendCoin(op: OutPoint) returns (ok: bool, moved: Coin)
      requires Stacked() && Valid()
      modifies repr
      ensures Valid() && View() == old(View()) - {op} && Below() == old(Below()) && ViewsBelow() == old(ViewsBelow())
      ensures ok <==> op in old(View()) || op in old(cacheCoins)
      ensures op in old(View()) ==> moved == old(View())[op]
      ensures op !in old(View()) ==> moved.IsSpent()
      ensures op in cacheCoins <==> ok && !(op in old(cacheCoins) && old(cacheCoins)[op].isFresh)
      ensures op in cacheCoins ==> cacheCoins[op] == Entry(CLEARED, true, false)
    {
      ok := FetchCoin(op);
      if !ok {
        assert View() - {op} == View();
        return false, CLEARED;
      }
      moved := cacheCoins[op].coin;
      ForgetOrClear(op);
    }

    /** The entry of a spent coin: a FRESH one is forgotten, another is cleared and marked DIRTY. */
    method ForgetOrClear(op: OutPoint)
      requires Stacked() && Valid() && op in cacheCoins
      modifies this
      ensures Valid() && View() == old(View()) - {op} && Below() == old(Below())
      ensures cacheCoins == if old(cacheCoins)[op].isFresh then old(cacheCoins) - {op}
                            else old(cacheCoins)[op := Entry(CLEARED, true, false)]
    {
      var e := cacheCoins[op];
      UsageWithout(usageOf, cacheCoins, op);
      cachedCoinsUsage := cachedCoinsUsage - usageOf(e.coin.out.script);
      if e.isFresh {
        EraseEntry(op);
      } else {
        Store(op, Entry(CLEARED, true, e.isFresh));
      }
    }

    /** Forgets an entry that has nothing to tell the view below. */
    method Uncache(op: OutPoint)
      requires Stacked() && Valid()
      modifies this
      ensures Valid() && View() == old(View()) && Below() == old(Below()) && hashBlock == old(hashBlock)
      ensures cacheCoins == if op in old(cacheCoins) && !old(cacheCoins)[op].isDirty && !old(cacheCoins)[op].isFresh
                            then old(cacheCoins) - {op} else old(cacheCoins)
    {
      if op in cacheCoins && !cacheCoins[op].isDirty && !cacheCoins[op].isFresh {
        UsageWithout(usageOf, cacheCoins, op);
        cachedCoinsUsage := cachedCoinsUsage - usageOf(cacheCoins[op].coin.out.script);
        EraseEntry(op);
      }
    }

    // ---- Flushing ---------------------------------------------------------------------------------

    /** One step of BatchWrite; `thrown` stands for the logic_error about a misapplied FRESH flag. */
    method MergeEntry(op: OutPoint, e: Entry) returns (thrown: bool)
      requires Stacked() && Accounted()
      modifies this
      ensures thrown <==> Misapplied(old(cacheCoins), op, e)
      ensures hashBlock == old(hashBlock) && Below() == old(Below()) && Accounted()
      ensures SameBut(old(cacheCoins), cacheCoins, op)
      ensures !thrown && !e.isDirty ==> cacheCoins == old(cacheCoins)
      ensures !thrown && e.isDirty ==>
                var isFresh := if op in old(cacheCoins) then old(cacheCoins)[op].isFresh else e.isFresh;
                && (op in cacheCoins <==> !(isFresh && e.coin.IsSpent()))
                && (op in cacheCoins ==> cacheCoins[op] == Entry(e.coin, true, isFresh))
      ensures old(Valid()) && EntryOk(old(View()), op, e) ==> !thrown && Valid() && View() == Told(old(View()), op, e)
    {
      if !e.isDirty {
        return false;
      }
      if op !in cacheCoins {
        if !(e.isFresh && e.coin.IsSpent()) {
          Store(op, Entry(e.coin, true, e.isFresh));
        }
      } else {
        var us := cacheCoins[op];
        if e.isFresh && !us.coin.IsSpent() {
          return true;
        }
        UsageWithout(usageOf, cacheCoins, op);
        cachedCoinsUsage := cachedCoinsUsage - usageOf(us.coin.out.script);
        if us.isFresh && e.coin.IsSpent() {
          EraseEntry(op);
        } else {
          Store(op, Entry(e.coin, true, us.isFresh));
        }
      }
      return false;
    }

    /** Whatever the batch; with the right flags the view becomes the child's. */
    method BatchWrite(mapCoins: CoinsMap, hashBlockIn: BlockHash) returns (thrown: bool)
      requires Stacked() && Valid()
      modifies this
      ensures thrown <==> exists op :: op in mapCoins && Misapplied(old(cacheCoins), op, mapCoins[op])
      ensures Accounted() && Below() == old(Below()) && hashBlock == if thrown then old(hashBlock) else hashBlockIn
      ensures FlagsOk(old(View()), mapCoins) ==> !thrown && Valid() && View() == Overlay(old(View()), mapCoins)
    {
      hide EntryOk, Overlay, Told, SameBut, Misapplied, TotalUsage;
      ghost var v0, good := View(), FlagsOk(View(), mapCoins);
      var rest := mapCoins;
      ghost var done: CoinsMap := map[];
      EmptyOverlay(v0);
      ViewUnspent();
      while rest != map[]
        invariant Accounted() && Below() == old(Below()) && hashBlock == old(hashBlock)
        invariant Partition(mapCoins, rest, done)
        invariant Untouched(old(cacheCoins), cacheCoins, rest, done)
        invariant good ==> Valid() && View() == Overlay(v0, done) && FlagsOk(View(), rest)
        decreases rest.Keys
      {
        var op :| op in rest;
        var e := rest[op];
        if good {
          OverlayAt(v0, done, op, e);
          OverlayOneMore(v0, done, op, e);
          FlagsElsewhere(View(), rest, op, e);
        }
        MoveEntry(mapCoins, rest, done, op);
        ghost var was := cacheCoins;
        thrown := MergeEntry(op, e);
        OneMoreMerged(old(cacheCoins), was, cacheCoins, rest, done, op);
        if thrown {
          return;
        }
        done := done[op := e];
        rest := rest - {op};
      }
      AllDone(mapCoins, done);
      hashBlock := hashBlockIn;
      return false;
    }

    /** base->BatchWrite. */
    method TellBelow() returns (thrown: bool)
      requires Stacked() && Valid() && (base == null ==> hashBlock != NULL_HASH)
      modifies repr - {this}
      ensures !thrown && BelowValid() && Below() == old(View())
      ensures ViewsBelow() == old(ViewsBelow())[|old(ViewsBelow())| - 1 := old(View())]
      ensures BestBlockBelow() == if old(hashBlock) != NULL_HASH then old(hashBlock) else old(base.BestBlockBelow())
    {
      ViewUnspent();
      if base == null {
        AppliedIsOverlay(db.coins, cacheCoins);
        db.BatchWrite(cacheCoins, hashBlock);
        return false;
      }
      thrown := base.BatchWrite(cacheCoins, hashBlock);
    }

    /** The database insists on a block hash; a cache takes whatever the child has. */
    method Flush() returns (thrown: bool)
      requires Stacked() && Valid() && (base == null ==> hashBlock != NULL_HASH)
      modifies repr
      ensures !thrown && cacheCoins == map[] && cachedCoinsUsage == 0 && hashBlock == old(hashBlock)
      ensures Valid() && View() == old(View()) && Below() == old(View())
      ensures Views() == old(Views())[|old(Views())| - 2 := old(View())]
      ensures BestBlock() == if old(hashBlock) != NULL_HASH then old(hashBlock) else old(base.BestBlockBelow())
    {
      ghost var v := View();
      thrown := TellBelow();
      cacheCoins := map[];
      cachedCoinsUsage := 0;
      EmptyOverlay(v);
    }

    method GetBestBlock() returns (h: BlockHash)
      requires Stacked() && Valid()
      modifies repr
      ensures Valid() && View() == old(View()) && ViewsBelow() == old(ViewsBelow()) && cacheCoins == old(cacheCoins)
      ensures BestBlock() == old(BestBlock()) && h == BestBlock()
      decreases depth
    {
      if hashBlock == NULL_HASH {
        if base == null {
          hashBlock := db.best;
        } else {
          var b := base.GetBestBlock();
          hashBlock := b;
        }
      }
      return hashBlock;
    }

    method SetBestBlock(h: BlockHash)
      requires Stacked() && Valid()
      modifies this
      ensures Valid() && View() == old(View()) && hashBlock == h
      ensures h != NULL_HASH ==> BestBlock() == h
    {
      hashBlock := h;
    }
  }

  // ---- Adding a transaction's outputs --------------------------------------------------------------------

  datatype Transaction = Transaction(txid: nat, outputs: seq<TxOut>, isCoinBase: bool)

  ghost function WithOutputs(view: Utxo, tx: Transaction, height: nat, k: nat): Utxo
    requires k <= |tx.outputs|
  {
    if k == 0 then view
    else
      var v := WithOutputs(view, tx, height, k - 1);
      if IsUnspendable(tx.outputs[k - 1].script) then v
      else v[OutPoint(tx.txid, k - 1) := Coin(tx.outputs[k - 1], height, tx.isCoinBase)]
  }

  lemma {:induction false} LaterOutputsUntouched(view: Utxo, tx: Transaction, height: nat, k: nat, n: nat)
    requires k <= |tx.outputs| && k <= n
    ensures OutPoint(tx.txid, n) in WithOutputs(view, tx, height, k) <==> OutPoint(tx.txid, n) in view
  {
    if k > 0 { LaterOutputsUntouched(view, tx, height, k - 1, n); }
  }

  /** What adding outputs makes of a view: a coin for each spendable one, and nothing else. */
  ghost predicate GainsOutputs(view: Utxo, after: Utxo, tx: Transaction, height: nat, k: nat)
    requires k <= |tx.outputs|
  {
    && (forall i :: 0 <= i < k && !IsUnspendable(tx.outputs[i].script) ==>
          OutPoint(tx.txid, i) in after && after[OutPoint(tx.txid, i)] == Coin(tx.outputs[i], height, tx.isCoinBase))
    && (forall op: OutPoint ::
          op.txid != tx.txid || op.n >= k || IsUnspendable(tx.outputs[op.n].script) ==> Same(view, after, op))
  }

  ghost predicate Same(view: Utxo, after: Utxo, op: OutPoint) {
    (op in after <==> op in view) && (op in view ==> after[op] == view[op])
  }

  lemma {:induction false} OutputsGained(view: Utxo, tx: Transaction, height: nat, k: nat)
    requires k <= |tx.outputs|
    ensures GainsOutputs(view, WithOutputs(view, tx, height, k), tx, height, k)
  {
    if k > 0 { OutputsGained(view, tx, height, k - 1); }
  }

  /** Never throws when overwrites are checked for, or can only come from a coinbase. */
  method AddCoins(cache: CoinsViewCache, tx: Transaction, height: nat, checkForOverwrite: bool) returns (thrown: bool)
    requires cache.Stacked() && cache.Valid()
    requires forall i :: 0 <= i < |tx.outputs| ==> tx.outputs[i].value != -1
    requires checkForOverwrite || tx.isCoinBase || forall n :: 0 <= n < |tx.outputs| ==>
               OutPoint(tx.txid, n) !in cache.View()
    modifies cache.repr
    ensures !thrown && cache.Valid()
    ensures GainsOutputs(old(cache.View()), cache.View(), tx, height, |tx.outputs|)
    ensures cache.Below() == old(cache.Below())
  {
    ghost var v0 := cache.View();
    for i := 0 to |tx.outputs|
      invariant cache.Valid() && cache.View() == WithOutputs(v0, tx, height, i) && cache.Below() == old(cache.Below())
    {
      var outpoint := OutPoint(tx.txid, i);
      var overwrite := tx.isCoinBase;
      if checkForOverwrite {
        overwrite := cache.HaveCoin(outpoint);
      }
      LaterOutputsUntouched(v0, tx, height, i, i);
      thrown := cache.AddCoin(outpoint, Coin(tx.outputs[i], height, tx.isCoinBase), overwrite);
      if thrown {
        return;
      }
    }
    OutputsGained(v0, tx, height, |tx.outputs|);
    return false;
  }

  // ---- Whole runs ---------------------------------------------------------------------------------------------

  datatype StackOp =
    | Read(op: OutPoint)
    | Add(op: OutPoint, coin: Coin, possibleOverwrite: bool)
    | Spend(op: OutPoint)
    | Uncache(op: OutPoint)
    | Push
    | FlushTop(hash: BlockHash)
    | Drop

  /** The stack as plain maps: writing changes the top, flushing copies it one down. */
  ghost function Replay(s: seq<Utxo>, o: StackOp): (r: seq<Utxo>)
    requires |s| >= 2
    ensures |r| >= 2
  {
    var t := |s| - 1;
    match o
    case Read(_) => s
    case Uncache(_) => s
    case Add(op, coin, _) => if IsUnspendable(coin.out.script) then s else s[t := s[t][op := coin]]
    case Spend(op) => s[t := s[t] - {op}]
    case Push => s + [s[t]]
    case FlushTop(_) => s[t - 1 := s[t]]
    case Drop => if |s| > 2 then s[..t] else s
  }

  /** A coin may be added without the overwrite mark only when none is visible. */
  ghost predicate Legal(s: seq<Utxo>, o: StackOp)
    requires |s| >= 2
  {
    match o
    case Add(op, coin, possibleOverwrite) => !coin.IsSpent() && (possibleOverwrite || op !in s[|s| - 1])
    case FlushTop(hash) => hash != NULL_HASH
    case _ => true
  }

  ghost function ReplayAll(s: seq<Utxo>, ops: seq<StackOp>): (r: seq<Utxo>)
    requires |s| >= 2
    ensures |r| >= 2
  {
    if ops == [] then s else Replay(ReplayAll(s, ops[..|ops| - 1]), ops[|ops| - 1])
  }

  ghost predicate LegalRun(s: seq<Utxo>, ops: seq<StackOp>)
    requires |s| >= 2
  {
    forall i :: 0 <= i < |ops| ==> Legal(ReplayAll(s, ops[..i]), ops[i])
  }

  /** Reading and writing happen at the top. */
  method PerformAtTop(c: CoinsViewCache, o: StackOp) returns (thrown: bool)
    requires c.Stacked() && c.Valid() && Legal(c.Views(), o)
    requires o.Read? || o.Add? || o.Spend? || o.Uncache?
    modifies c.repr
    ensures !thrown && c.Valid() && c.Views() == Replay(old(c.Views()), o)
  {
    ghost var b, v := c.ViewsBelow(), c.View();
    match o {
      case Read(op) =>
        var _, _ := c.GetCoin(op);
        thrown := false;
      case Add(op, coin, possibleOverwrite) =>
        thrown := c.AddCoin(op, coin, possibleOverwrite);
      case Spend(op) =>
        var _, _ := c.SpendCoin(op);
        thrown := false;
      case Uncache(op) =>
        c.Uncache(op);
        thrown := false;
    }
    assert c.ViewsBelow() == b && forall w :: (b + [v])[|b| := w] == b + [w];
  }

  /** One operation on the caches does to every view of the stack what it does to the plain maps. */
  method Perform(c: CoinsViewCache, o: StackOp) returns (d: CoinsViewCache, thrown: bool)
    requires c.Stacked() && c.Valid() && Legal(c.Views(), o)
    modifies c.repr
    ensures !thrown && d.Stacked() && d.Valid() && d.db == c.db
    ensures forall x :: x in d.repr ==> x in c.repr || fresh(x)
    ensures d.Views() == Replay(old(c.Views()), o)
  {
    d, thrown := c, false;
    if o.Push? {
      d := new CoinsViewCache.OnCache(c);
    } else if o.FlushTop? {
      c.SetBestBlock(o.hash);
      thrown := c.Flush();
    } else if o.Drop? {
      if c.base != null {
        d := c.base;
      }
    } else {
      thrown := PerformAtTop(c, o);
    }
  }

  method Execute(db: CoinsViewDB, usageOf: ScriptUsage, ops: seq<StackOp>) returns (c: CoinsViewCache, thrown: bool)
    requires AllUnspent(db.coins) && LegalRun([db.coins, db.coins], ops)
    modifies db
    ensures !thrown && c.Stacked() && c.Valid()
    ensures c.Views() == ReplayAll([old(db.coins), old(db.coins)], ops)
  {
    ghost var s := [db.coins, db.coins];
    c := new CoinsViewCache.OnDatabase(db, usageOf);
    thrown := false;
    for i := 0 to |ops|
      invariant c.Stacked() && c.Valid() && c.db == db && forall x :: x in c.repr ==> x == db || fresh(x)
      invariant c.Views() == ReplayAll(s, ops[..i])
    {
      assert ops[..i + 1][..i] == ops[..i] && ops[..i + 1][i] == ops[i];
      c, thrown := Perform(c, ops[i]);
      if thrown {
        return;
      }
    }
    assert ops[..|ops|] == ops;
  }

  // ---- Where the answers surprise ---------------------------------------------------------------------------

  /** A coin of the database is spent twice in one cache, and both calls report success. */
  method SpentTwice(usageOf: ScriptUsage, op: OutPoint, coin: Coin) returns (ok1: bool, ok2: bool)
    requires !coin.IsSpent()
    ensures ok1 && ok2
  {
    var db := new CoinsViewDB(map[op := coin], NULL_HASH);
    var cache := new CoinsViewCache.OnDatabase(db, usageOf);
    var moved;
    ok1, moved := cache.SpendCoin(op);
    ok2, moved := cache.SpendCoin(op);
  }

  /** A coin that only a cache below shows is overwritten without permission: nothing is thrown, and the flags lie. */
  method OverwrittenUnseen(usageOf: ScriptUsage, op: OutPoint, coin: Coin, other: Coin)
    returns (cache: CoinsViewCache, thrown: bool)
    requires !coin.IsSpent() && !other.IsSpent() && !IsUnspendable(other.out.script)
    ensures !thrown && cache.Stacked() && !cache.Valid() && op in cache.Below() && cache.Below()[op] == coin
  {
    hide Overlay, FlagsOk, EntryOk, TotalUsage, IsUnspendable;
    var db := new CoinsViewDB(map[op := coin], NULL_HASH);
    var below := new CoinsViewCache.OnDatabase(db, usageOf);
    cache := new CoinsViewCache.OnCache(below);
    assert cache.Below() == db.coins && cache.View() == db.coins by {
      assert cache.Views() == [db.coins, db.coins] + [db.coins];
    }
    thrown := cache.AddCoin(op, other, false);
  }
}
