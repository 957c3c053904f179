/** A hash table without room to spare (include/clarisma/data/CompactHashTable.h): as many slots as items. Items
    that collide go to slots that no item calls its own, linked from the item in their home slot. */
module CompactHashTables {

  const END: nat := 0xffff_ffff

  datatype Item<K, V> = Item(key: K, value: V, next: nat)

  datatype Option<T> = None | Some(value: T)

  function Home<K, V>(hash: K -> nat, item: Item<K, V>, size: nat): (slot: nat)
    requires size > 0
    ensures slot < size
  {
    hash(item.key) % size
  }

  predicate SameItem<K(==), V(==)>(a: Item<K, V>, b: Item<K, V>) { a.key == b.key && a.value == b.value }

  ghost predicate SameItems<K, V>(a: seq<Item<K, V>>, b: seq<Item<K, V>>) {
    |a| == |b| && forall i {:trigger a[i]} {:trigger b[i]} :: 0 <= i < |a| ==> SameItem(a[i], b[i])
  }

  ghost predicate DistinctSlots(s: seq<nat>) { forall i, j :: 0 <= i < j < |s| ==> s[i] != s[j] }

  /** Position `k` of the chain holds an item whose home is `s`, linked to the next position. */
  predicate LinkAt<K, V>(t: seq<Item<K, V>>, hash: K -> nat, s: nat, chain: seq<nat>, k: nat) {
    && |t| > 0 && k < |chain| && chain[k] < |t| && Home(hash, t[chain[k]], |t|) == s
    && t[chain[k]].next == (if k + 1 < |chain| then chain[k + 1] else END)
  }

  /** `chain` is what the links make of slot `s`: it starts there, and holds items whose home the slot is. */
  ghost predicate ChainOk<K, V>(t: seq<Item<K, V>>, hash: K -> nat, s: nat, chain: seq<nat>) {
    && |t| > 0 && (chain != [] ==> chain[0] == s) && DistinctSlots(chain)
    && forall k: nat {:trigger LinkAt(t, hash, s, chain, k)} :: k < |chain| ==> LinkAt(t, hash, s, chain, k)
  }

  ghost predicate ChainsOk<K, V>(t: seq<Item<K, V>>, hash: K -> nat, chains: seq<seq<nat>>) {
    |chains| == |t| && forall s: nat {:trigger chains[s]} :: s < |t| ==> ChainOk(t, hash, s, chains[s])
  }

  /** The table is linked up: every slot is on the chain of its item's home slot. */
  ghost predicate Linked<K, V>(t: seq<Item<K, V>>, hash: K -> nat, chains: seq<seq<nat>>) {
    && 0 < |t| < END && ChainsOk(t, hash, chains)
    && forall j: nat {:trigger t[j]} :: j < |t| ==> j in chains[Home(hash, t[j], |t|)]
  }

  // ---------------------------------------------------------------- lookup

  /** An item with the key is on the chain that starts in the key's home slot; if that slot holds a stranger, there is none. */
  lemma KeysAreHome<K, V>(t: seq<Item<K, V>>, hash: K -> nat, chains: seq<seq<nat>>, k: K)
    requires Linked(t, hash, chains)
    ensures var slot := hash(k) % |t|;
            forall j: nat :: j < |t| && t[j].key == k ==> Home(hash, t[slot], |t|) == slot && j in chains[slot] && chains[slot][0] == slot
  {
    var slot := hash(k) % |t|;
    forall j: nat | j < |t| && t[j].key == k
      ensures Home(hash, t[slot], |t|) == slot && j in chains[slot] && chains[slot][0] == slot
    {
      assert j in chains[Home(hash, t[j], |t|)];
      assert ChainOk(t, hash, slot, chains[slot]);
      assert chains[slot][0] == slot && LinkAt(t, hash, slot, chains[slot], 0);
    }
  }

  /** Where the search for a key begins: at the head of the key's chain, or somewhere on a stranger's */
  lemma SearchStart<K, V>(t: seq<Item<K, V>>, hash: K -> nat, chains: seq<seq<nat>>, k: K) returns (chain: seq<nat>, pos: nat)
    requires Linked(t, hash, chains)
    ensures 0 < |t| < END && pos < |chain| && chain[pos] == hash(k) % |t| && ChainOk(t, hash, Home(hash, t[hash(k) % |t|], |t|), chain)
    ensures forall j: nat :: j < |t| && t[j].key == k ==> exists i :: pos <= i < |chain| && chain[i] == j
  {
    var slot := hash(k) % |t|;
    var home := Home(hash, t[slot], |t|);
    chain := chains[home];
    assert slot in chain && ChainOk(t, hash, home, chain);
    pos :| 0 <= pos < |chain| && chain[pos] == slot;
    if home == slot { pos := 0; }
    KeysAreHome(t, hash, chains, k);
    hide Linked, ChainOk;
    forall j: nat | j < |t| && t[j].key == k ensures exists i :: pos <= i < |chain| && chain[i] == j {
      assert j in chain;
    }
  }

  lemma ChainAt<K, V>(t: seq<Item<K, V>>, hash: K -> nat, s: nat, chain: seq<nat>, i: nat)
    requires ChainOk(t, hash, s, chain) && i < |chain|
    ensures chain[i] < |t| && t[chain[i]].next == if i + 1 < |chain| then chain[i + 1] else END
    ensures i + 1 < |chain| ==> chain[i + 1] < |t|
  {
    assert LinkAt(t, hash, s, chain, i);
    assert i + 1 < |chain| ==> LinkAt(t, hash, s, chain, i + 1);
  }

  /** Follows the links from the key's home slot, even where the item in that slot has another home. */
  method Lookup<K(==), V>(table: array<Item<K, V>>, hash: K -> nat, k: K, ghost chains: seq<seq<nat>>) returns (found: Option<nat>)
    requires Linked(table[..], hash, chains)
    ensures found.Some? ==> found.value < table.Length && table[found.value].key == k
    ensures found.None? ==> forall j :: 0 <= j < table.Length ==> table[j].key != k
  {
    hide Linked, ChainOk;
    ghost var t := table[..];
    ghost var chain, pos := SearchStart(t, hash, chains, k);
    ghost var start := pos;
    var slot := hash(k) % table.Length;
    while true
      invariant pos < |chain| && start <= pos && chain[pos] == slot < |t|
      invariant forall i :: start <= i < pos ==> chain[i] < |t| && t[chain[i]].key != k
      decreases |chain| - pos
    {
      ChainAt(t, hash, Home(hash, t[hash(k) % |t|], |t|), chain, pos);
      var item := table[slot];
      if item.key == k {
        return Some(slot);
      }
      slot := item.next;
      if slot == END {
        break;
      }
      pos := pos + 1;
    }
    return None;
  }

  // ---------------------------------------------------------------- create: who is where

  /** `owner[s]` is the source item in slot `s`, `place[i]` the slot of source item `i`; -1 is none yet. */
  ghost predicate Matched<K, V>(orig: seq<Item<K, V>>, t: seq<Item<K, V>>, owner: seq<int>, place: seq<int>) {
    && |owner| == |place| == |orig| == |t|
    && (forall s {:trigger owner[s]} :: 0 <= s < |t| && owner[s] >= 0 ==>
          owner[s] < |t| && place[owner[s]] == s && SameItem(t[s], orig[owner[s]]))
    && forall i {:trigger place[i]} :: 0 <= i < |t| && place[i] >= 0 ==> place[i] < |t| && owner[place[i]] == i
  }

  /** The items not yet placed are as many as the slots not yet taken. */
  ghost predicate Balanced(owner: seq<int>, place: seq<int>, unplaced: set<nat>, empty: set<nat>) {
    && (forall i: nat :: i in unplaced <==> i < |place| && place[i] < 0)
    && (forall s: nat :: s in empty <==> s < |owner| && owner[s] < 0)
    && |unplaced| == |empty|
  }

  /** After the first loop has gone through `n` items: the first of each home slot is in its place. */
  ghost predicate FirstsPlaced<K, V>(orig: seq<Item<K, V>>, src: seq<Item<K, V>>, t: seq<Item<K, V>>, hash: K -> nat, n: nat,
                                     owner: seq<int>, place: seq<int>) {
    && SameItems(orig, src) && Matched(orig, t, owner, place) && 0 < |t| < END && n <= |t|
    && (forall s {:trigger owner[s]} :: 0 <= s < |t| ==>
          if owner[s] < 0 then t[s].next == 0 else owner[s] < n && t[s].next == END && Home(hash, t[s], |t|) == s)
    && forall i {:trigger place[i]} :: 0 <= i < |t| ==>
         if i >= n then place[i] < 0
         else
           var home := Home(hash, orig[i], |t|);
           owner[home] >= 0 && src[i].next == (if place[i] >= 0 then END else home)
  }

  lemma FirstTaken<K, V>(orig: seq<Item<K, V>>, src: seq<Item<K, V>>, t: seq<Item<K, V>>, hash: K -> nat, i: nat,
                         owner: seq<int>, place: seq<int>)
    requires FirstsPlaced(orig, src, t, hash, i, owner, place) && i < |t| && src[i] == orig[i]
    requires owner[Home(hash, orig[i], |t|)] < 0
    ensures var home := Home(hash, orig[i], |t|);
            var item := orig[i].(next := END);
            FirstsPlaced(orig, src[i := item], t[home := item], hash, i + 1, owner[home := i], place[i := home])
  {
    var home := Home(hash, orig[i], |t|);
    var item := orig[i].(next := END);
    var src', t', owner', place' := src[i := item], t[home := item], owner[home := i], place[i := home];
    assert place[i] < 0;
    forall s | 0 <= s < |t'|
      ensures owner'[s] >= 0 ==> owner'[s] < |t'| && place'[owner'[s]] == s && SameItem(t'[s], orig[owner'[s]])
      ensures if owner'[s] < 0 then t'[s].next == 0 else owner'[s] < i + 1 && t'[s].next == END && Home(hash, t'[s], |t'|) == s
    {
      assert owner'[s] == if s == home then i else owner[s];
    }
    forall j | 0 <= j < |t'|
      ensures place'[j] >= 0 ==> place'[j] < |t'| && owner'[place'[j]] == j
      ensures if j >= i + 1 then place'[j] < 0
              else owner'[Home(hash, orig[j], |t'|)] >= 0 && src'[j].next == (if place'[j] >= 0 then END else Home(hash, orig[j], |t'|))
    {
      assert place'[j] == if j == i then home else place[j];
    }
  }

  lemma Collided<K, V>(orig: seq<Item<K, V>>, src: seq<Item<K, V>>, t: seq<Item<K, V>>, hash: K -> nat, i: nat, owner: seq<int>, place: seq<int>)
    requires FirstsPlaced(orig, src, t, hash, i, owner, place) && i < |t| && src[i] == orig[i]
    requires owner[Home(hash, orig[i], |t|)] >= 0
    ensures FirstsPlaced(orig, src[i := orig[i].(next := Home(hash, orig[i], |t|))], t, hash, i + 1, owner, place)
  {
  }

  lemma OneLess(owner: seq<int>, place: seq<int>, unplaced: set<nat>, empty: set<nat>, i: nat, s: nat)
    requires Balanced(owner, place, unplaced, empty) && i < |place| && s < |owner| && place[i] < 0 && owner[s] < 0
    ensures Balanced(owner[s := i], place[i := s], unplaced - {i}, empty - {s})
  {
    assert i in unplaced && s in empty;
  }

  lemma SlotState<K, V>(orig: seq<Item<K, V>>, src: seq<Item<K, V>>, t: seq<Item<K, V>>, hash: K -> nat, i: nat, owner: seq<int>, place: seq<int>, s: nat)
    requires FirstsPlaced(orig, src, t, hash, i, owner, place) && s < |t|
    ensures |owner| == |place| == |orig| == |src| == |t| && (t[s].next == 0 <==> owner[s] < 0) && (i < |t| ==> place[i] < 0)
  {
  }

  function Below(n: nat): (all: set<nat>)
    ensures forall i: nat :: i in all <==> i < n
  {
    if n == 0 then {} else Below(n - 1) + {n - 1}
  }

  function Nowhere(n: nat): (none: seq<int>)
    ensures |none| == n && forall i :: 0 <= i < n ==> none[i] == -1
  {
    seq(n, i => -1)
  }

  lemma NothingPlaced<K, V>(orig: seq<Item<K, V>>, t: seq<Item<K, V>>, hash: K -> nat)
    requires 0 < |t| == |orig| < END && forall s :: 0 <= s < |t| ==> t[s].next == 0
    ensures FirstsPlaced(orig, orig, t, hash, 0, Nowhere(|t|), Nowhere(|t|))
    ensures Balanced(Nowhere(|t|), Nowhere(|t|), Below(|t|), Below(|t|))
  {
    hide Below, Nowhere;
  }

  /** Places the items that do not collide; a colliding item keeps its home slot as its link. */
  method PlaceFirsts<K, V>(table: array<Item<K, V>>, source: array<Item<K, V>>, hash: K -> nat)
    returns (ghost owner: seq<int>, ghost place: seq<int>, ghost unplaced: set<nat>, ghost empty: set<nat>)
    requires table != source && 0 < table.Length == source.Length < END
    requires forall s :: 0 <= s < table.Length ==> table[s].next == 0
    modifies table, source
    ensures FirstsPlaced(old(source[..]), source[..], table[..], hash, table.Length, owner, place)
    ensures Balanced(owner, place, unplaced, empty)
  {
    hide FirstsPlaced, Balanced, Below;
    var size := table.Length;
    ghost var orig := source[..];
    owner, place := Nowhere(size), Nowhere(size);
    unplaced, empty := Below(size), Below(size);
    NothingPlaced(orig, table[..], hash);
    var i := 0;
    while i < size
      invariant 0 <= i <= size && forall j :: i <= j < size ==> source[j] == orig[j]
      invariant FirstsPlaced(orig, source[..], table[..], hash, i, owner, place)
      invariant Balanced(owner, place, unplaced, empty)
    {
      var slot := Home(hash, source[i], size);
      SlotState(orig, source[..], table[..], hash, i, owner, place, slot);
      if table[slot].next == 0 {
        FirstTaken(orig, source[..], table[..], hash, i, owner, place);
        OneLess(owner, place, unplaced, empty, i, slot);
        source[i] := source[i].(next := END);
        table[slot] := source[i];
        owner, place := owner[slot := i], place[i := slot];
        unplaced, empty := unplaced - {i}, empty - {slot};
      } else {
        Collided(orig, source[..], table[..], hash, i, owner, place);
        source[i] := source[i].(next := slot);
      }
      i := i + 1;
    }
  }

  // ---------------------------------------------------------------- create: the empty slots, and the rest of the items

  /** The empty slots, linked from `first` */
  ghost predicate FreeOk<K, V>(t: seq<Item<K, V>>, first: nat, free: seq<nat>) {
    && DistinctSlots(free) && first == (if free == [] then END else free[0])
    && forall k: nat {:trigger FreeAt(t, free, k)} :: k < |free| ==> FreeAt(t, free, k)
  }

  predicate FreeAt<K, V>(t: seq<Item<K, V>>, free: seq<nat>, k: nat) {
    k < |free| && free[k] < |t| && t[free[k]].next == (if k + 1 < |free| then free[k + 1] else END)
  }

  /** Links the empty slots; the others are left alone. */
  method LinkEmpty<K, V>(table: array<Item<K, V>>, ghost owner: seq<int>) returns (firstEmpty: nat, ghost free: seq<nat>)
    requires |owner| == table.Length < END
    requires forall s {:trigger owner[s]} :: 0 <= s < table.Length ==> (owner[s] < 0 <==> table[s].next == 0)
    modifies table
    ensures FreeOk(table[..], firstEmpty, free) && forall s: nat :: s in free <==> s < table.Length && owner[s] < 0
    ensures forall s {:trigger owner[s]} :: 0 <= s < table.Length && owner[s] >= 0 ==> table[s] == old(table[s])
  {
    hide FreeOk;
    firstEmpty, free := END, [];
    NoneFree(table[..]);
    var i := 0;
    while i < table.Length
      invariant 0 <= i <= table.Length && FreeOk(table[..], firstEmpty, free)
      invariant forall s: nat :: s in free <==> s < i && owner[s] < 0
      invariant forall s :: i <= s < table.Length ==> table[s] == old(table[s])
      invariant forall s :: 0 <= s < table.Length && owner[s] >= 0 ==> table[s] == old(table[s])
    {
      assert owner[i] < 0 || owner[i] >= 0;
      if table[i].next == 0 {
        assert owner[i] < 0 && i !in free;
        FreeGrows(table[..], firstEmpty, free, i);
        table[i] := table[i].(next := firstEmpty);
        firstEmpty, free := i, [i] + free;
      }
      i := i + 1;
    }
  }

  lemma NoneFree<K, V>(t: seq<Item<K, V>>)
    ensures FreeOk(t, END, [])
  {
  }

  lemma FreeGrows<K, V>(t: seq<Item<K, V>>, first: nat, free: seq<nat>, i: nat)
    requires FreeOk(t, first, free) && i < |t| && i !in free
    ensures FreeOk(t[i := t[i].(next := first)], i, [i] + free)
  {
    var t', free' := t[i := t[i].(next := first)], [i] + free;
    forall k: nat | k < |free'| ensures FreeAt(t', free', k) {
      if k > 0 {
        assert FreeAt(t, free, k - 1) && free[k - 1] in free;
      }
    }
  }

  /** The chains hold exactly the slots that have an item. */
  ghost predicate ChainsHold<K, V>(t: seq<Item<K, V>>, hash: K -> nat, owner: seq<int>, chains: seq<seq<nat>>) {
    && |owner| == |chains| == |t| && |t| > 0
    && (forall s: nat, k {:trigger chains[s][k]} :: s < |t| && 0 <= k < |chains[s]| ==> chains[s][k] < |t| && owner[chains[s][k]] >= 0)
    && forall s: nat {:trigger owner[s]} :: s < |t| && owner[s] >= 0 ==> s in chains[Home(hash, t[s], |t|)]
  }

  /** Before item `i` everything is placed; after it, what is not placed is linked to its home slot. */
  ghost predicate SourceLeft<K, V>(orig: seq<Item<K, V>>, src: seq<Item<K, V>>, hash: K -> nat, i: nat, place: seq<int>, chains: seq<seq<nat>>) {
    && |src| == |place| == |chains| == |orig| && |orig| > 0
    && forall j: nat {:trigger place[j]} :: j < |orig| ==>
         && chains[Home(hash, orig[j], |orig|)] != []
         && (j < i ==> place[j] >= 0) && (j >= i ==> src[j].next == if place[j] >= 0 then END else Home(hash, orig[j], |orig|))
  }

  /** While the rest is placed */
  ghost predicate Placing<K, V>(orig: seq<Item<K, V>>, src: seq<Item<K, V>>, t: seq<Item<K, V>>, hash: K -> nat, i: nat,
                                owner: seq<int>, place: seq<int>, chains: seq<seq<nat>>) {
    && SameItems(orig, src) && Matched(orig, t, owner, place) && 0 < |t| < END && i <= |t| && ChainsOk(t, hash, chains)
    && ChainsHold(t, hash, owner, chains) && SourceLeft(orig, src, hash, i, place, chains)
  }

  /** After the first loop each chain is its home slot, or empty. */
  function FirstChains(owner: seq<int>, n: nat): (chains: seq<seq<nat>>)
    requires n <= |owner|
    ensures |chains| == n && forall s: nat {:trigger chains[s]} :: s < n ==> chains[s] == if owner[s] >= 0 then [s] else []
  {
    if n == 0 then [] else FirstChains(owner, n - 1) + [if owner[n - 1] >= 0 then [n - 1] else []]
  }

  lemma PlacingStarts<K, V>(orig: seq<Item<K, V>>, src: seq<Item<K, V>>, t: seq<Item<K, V>>, t': seq<Item<K, V>>, hash: K -> nat,
                            owner: seq<int>, place: seq<int>)
    requires FirstsPlaced(orig, src, t, hash, |t|, owner, place) && |t'| == |t|
    requires forall s {:trigger owner[s]} :: 0 <= s < |t| && owner[s] >= 0 ==> t'[s] == t[s]
    ensures |owner| == |t| && Placing(orig, src, t', hash, 0, owner, place, FirstChains(owner, |t|))
  {
    hide FirstChains, ChainsOk, ChainsHold, SourceLeft, ChainOk, SameItems, Matched, Home, FirstsPlaced;
    MatchedStays(orig, src, t, t', hash, owner, place);
    FirstChainsOk(orig, src, t, t', hash, owner, place);
    SourceReady(orig, src, t, hash, owner, place);
  }

  lemma MatchedStays<K, V>(orig: seq<Item<K, V>>, src: seq<Item<K, V>>, t: seq<Item<K, V>>, t': seq<Item<K, V>>, hash: K -> nat,
                           owner: seq<int>, place: seq<int>)
    requires FirstsPlaced(orig, src, t, hash, |t|, owner, place) && |t'| == |t|
    requires forall s {:trigger owner[s]} :: 0 <= s < |t| && owner[s] >= 0 ==> t'[s] == t[s]
    ensures |owner| == |place| == |t| == |orig| == |src| && SameItems(orig, src) && Matched(orig, t', owner, place) && 0 < |t| < END
  {
  }

  lemma FirstChainsOk<K, V>(orig: seq<Item<K, V>>, src: seq<Item<K, V>>, t: seq<Item<K, V>>, t': seq<Item<K, V>>, hash: K -> nat,
                            owner: seq<int>, place: seq<int>)
    requires FirstsPlaced(orig, src, t, hash, |t|, owner, place) && |t'| == |t| == |owner|
    requires forall s {:trigger owner[s]} :: 0 <= s < |t| && owner[s] >= 0 ==> t'[s] == t[s]
    ensures ChainsOk(t', hash, FirstChains(owner, |t|)) && ChainsHold(t', hash, owner, FirstChains(owner, |t|))
  {
    hide FirstsPlaced, FirstChains, ChainOk, ChainsHold;
    forall s: nat | s < |t| ensures ChainOk(t', hash, s, FirstChains(owner, |t|)[s]) {
      FirstChainAt(orig, src, t, t', hash, owner, place, s);
    }
    forall s: nat | s < |t| && owner[s] >= 0 ensures |t| > 0 && Home(hash, t'[s], |t|) == s {
      FirstChainAt(orig, src, t, t', hash, owner, place, s);
    }
    NotEmpty(orig, src, t, hash, owner, place);
    FirstChainsHold(t', hash, owner);
  }

  lemma NotEmpty<K, V>(orig: seq<Item<K, V>>, src: seq<Item<K, V>>, t: seq<Item<K, V>>, hash: K -> nat, owner: seq<int>, place: seq<int>)
    requires FirstsPlaced(orig, src, t, hash, |t|, owner, place)
    ensures |t| > 0
  {
    hide SameItems, Matched;
  }

  lemma FirstChainsHold<K, V>(t: seq<Item<K, V>>, hash: K -> nat, owner: seq<int>)
    requires 0 < |t| == |owner| && forall s: nat {:trigger owner[s]} :: s < |t| && owner[s] >= 0 ==> Home(hash, t[s], |t|) == s
    ensures ChainsHold(t, hash, owner, FirstChains(owner, |t|))
  {
    hide FirstChains;
    SinglesHold(t, hash, owner, FirstChains(owner, |t|));
  }

  lemma SinglesHold<K, V>(t: seq<Item<K, V>>, hash: K -> nat, owner: seq<int>, chains: seq<seq<nat>>)
    requires 0 < |t| == |owner| == |chains| && forall s: nat {:trigger owner[s]} :: s < |t| && owner[s] >= 0 ==> Home(hash, t[s], |t|) == s
    requires forall s: nat {:trigger chains[s]} :: s < |t| ==> chains[s] == if owner[s] >= 0 then [s] else []
    ensures ChainsHold(t, hash, owner, chains)
  {
    hide Home;
    forall s: nat, k: nat | s < |t| && k < |chains[s]| ensures chains[s][k] < |t| && owner[chains[s][k]] >= 0 {
      Single(owner[s] >= 0, s, k);
    }
    forall s: nat | s < |t| && owner[s] >= 0 ensures s in chains[Home(hash, t[s], |t|)] {
      assert chains[s] == [s];
    }
  }

  lemma Single(taken: bool, s: nat, k: nat)
    requires k < |if taken then [s] else []|
    ensures taken && (if taken then [s] else [])[k] == s
  {
  }

  lemma FirstChainAt<K, V>(orig: seq<Item<K, V>>, src: seq<Item<K, V>>, t: seq<Item<K, V>>, t': seq<Item<K, V>>, hash: K -> nat,
                           owner: seq<int>, place: seq<int>, s: nat)
    requires FirstsPlaced(orig, src, t, hash, |t|, owner, place) && |t'| == |t| == |owner| && s < |t|
    requires owner[s] >= 0 ==> t'[s] == t[s]
    ensures ChainOk(t', hash, s, if owner[s] >= 0 then [s] else []) && (owner[s] >= 0 ==> Home(hash, t'[s], |t|) == s) && |t| > 0
  {
    hide SameItems, Matched;
    assert owner[s] >= 0 || owner[s] < 0;
  }

  lemma SourceReady<K, V>(orig: seq<Item<K, V>>, src: seq<Item<K, V>>, t: seq<Item<K, V>>, hash: K -> nat, owner: seq<int>, place: seq<int>)
    requires FirstsPlaced(orig, src, t, hash, |t|, owner, place) && |owner| == |place| == |orig| == |src| == |t|
    ensures SourceLeft(orig, src, hash, 0, place, FirstChains(owner, |t|))
  {
    hide FirstChains, SameItems, Matched;
    forall j: nat | j < |t|
      ensures FirstChains(owner, |t|)[Home(hash, orig[j], |t|)] != [] && src[j].next == if place[j] >= 0 then END else Home(hash, orig[j], |t|)
    {
      assert place[j] >= 0 || place[j] < 0;
    }
  }

  // ---------------------------------------------------------------- one more item

  /** The chain of slot `s` after an item was put into slot `e` and linked in behind the home slot */
  function Extended(chain: seq<nat>, e: nat): seq<nat>
    requires chain != []
  {
    [chain[0], e] + chain[1..]
  }

  /** The table after it */
  function Inserted<K, V>(t: seq<Item<K, V>>, s: nat, e: nat, item: Item<K, V>): seq<Item<K, V>>
    requires s < |t| && e < |t|
  {
    t[s := t[s].(next := e)][e := item.(next := t[s].next)]
  }

  lemma OwnChain<K, V>(t: seq<Item<K, V>>, hash: K -> nat, s: nat, chain: seq<nat>, e: nat, item: Item<K, V>)
    requires ChainOk(t, hash, s, chain) && chain != [] && s < |t| && e < |t| && e !in chain && Home(hash, item, |t|) == s
    ensures ChainOk(Inserted(t, s, e, item), hash, s, Extended(chain, e))
  {
    hide Inserted, Extended, DistinctSlots;
    var t', c := Inserted(t, s, e, item), Extended(chain, e);
    Distinctness(chain, e);
    InsertedAt(t, s, e, item);
    forall k: nat | k < |c| ensures LinkAt(t', hash, s, c, k) {
      OwnChainAt(t, hash, s, chain, e, item, k);
    }
  }

  lemma InsertedAt<K, V>(t: seq<Item<K, V>>, s: nat, e: nat, item: Item<K, V>)
    requires s < |t| && e < |t| && s != e
    ensures |Inserted(t, s, e, item)| == |t| && Inserted(t, s, e, item)[s] == t[s].(next := e)
    ensures Inserted(t, s, e, item)[e] == item.(next := t[s].next)
    ensures forall j :: 0 <= j < |t| && j != s && j != e ==> Inserted(t, s, e, item)[j] == t[j]
  {
  }

  lemma ExtendedAt(chain: seq<nat>, e: nat, k: nat)
    requires chain != [] && k < |chain| + 1
    ensures |Extended(chain, e)| == |chain| + 1
    ensures Extended(chain, e)[k] == if k == 0 then chain[0] else if k == 1 then e else chain[k - 1]
  {
  }

  lemma Distinctness(chain: seq<nat>, e: nat)
    requires chain != [] && DistinctSlots(chain) && e !in chain
    ensures DistinctSlots(Extended(chain, e)) && |Extended(chain, e)| == |chain| + 1 && Extended(chain, e)[0] == chain[0] && chain[0] != e
    ensures forall k :: 0 < k < |chain| ==> chain[k] != chain[0] && chain[k] != e
  {
    var c := Extended(chain, e);
    forall i: nat, j: nat | i < j < |c| ensures c[i] != c[j] {
      ExtendedAt(chain, e, i);
      ExtendedAt(chain, e, j);
    }
  }

  lemma OwnChainAt<K, V>(t: seq<Item<K, V>>, hash: K -> nat, s: nat, chain: seq<nat>, e: nat, item: Item<K, V>, k: nat)
    requires ChainOk(t, hash, s, chain) && chain != [] && s < |t| && e < |t| && e !in chain && Home(hash, item, |t|) == s
    requires k < |Extended(chain, e)|
    ensures LinkAt(Inserted(t, s, e, item), hash, s, Extended(chain, e), k)
  {
    hide Inserted, Extended, DistinctSlots;
    Distinctness(chain, e);
    InsertedAt(t, s, e, item);
    ExtendedAt(chain, e, k);
    if k < |chain| { ExtendedAt(chain, e, k + 1); }
    assert LinkAt(t, hash, s, chain, if k < 2 then 0 else k - 1);
  }

  lemma OtherChain<K, V>(t: seq<Item<K, V>>, hash: K -> nat, s: nat, e: nat, item: Item<K, V>, s': nat, chain: seq<nat>)
    requires ChainOk(t, hash, s', chain) && s' != s && s < |t| && e < |t| && s != e && e !in chain && Home(hash, t[s], |t|) == s
    ensures ChainOk(Inserted(t, s, e, item), hash, s', chain)
  {
    hide Inserted;
    InsertedAt(t, s, e, item);
    forall k: nat | k < |chain| ensures LinkAt(Inserted(t, s, e, item), hash, s', chain, k) {
      assert LinkAt(t, hash, s', chain, k) && chain[k] in chain;
    }
  }

  lemma ChainsExtended<K, V>(t: seq<Item<K, V>>, hash: K -> nat, chains: seq<seq<nat>>, owner: seq<int>, s: nat, e: nat, item: Item<K, V>)
    requires ChainsOk(t, hash, chains) && ChainsHold(t, hash, owner, chains)
    requires s < |t| && e < |t| && owner[e] < 0 && chains[s] != [] && Home(hash, item, |t|) == s
    ensures s != e && ChainsOk(Inserted(t, s, e, item), hash, chains[s := Extended(chains[s], e)])
  {
    assert ChainOk(t, hash, s, chains[s]);
    assert chains[s][0] == s && LinkAt(t, hash, s, chains[s], 0) && owner[chains[s][0]] >= 0;
    forall s': nat | s' < |t| ensures e !in chains[s'] {
      forall k | 0 <= k < |chains[s']| ensures chains[s'][k] != e {
        assert owner[chains[s'][k]] >= 0;
      }
    }
    var t', chains' := Inserted(t, s, e, item), chains[s := Extended(chains[s], e)];
    hide ChainOk, Inserted, Extended, ChainsHold;
    forall s': nat | s' < |t'| ensures ChainOk(t', hash, s', chains'[s']) {
      assert ChainOk(t, hash, s', chains[s']);
      if s' == s {
        OwnChain(t, hash, s, chains[s], e, item);
      } else {
        OtherChain(t, hash, s, e, item, s', chains[s']);
      }
    }
  }

  lemma HoldExtended<K, V>(t: seq<Item<K, V>>, hash: K -> nat, chains: seq<seq<nat>>, owner: seq<int>, s: nat, e: nat, item: Item<K, V>, i: nat)
    requires ChainsHold(t, hash, owner, chains) && s < |t| && e < |t| && s != e && chains[s] != [] && Home(hash, item, |t|) == s
    ensures ChainsHold(Inserted(t, s, e, item), hash, owner[e := i], chains[s := Extended(chains[s], e)])
  {
    hide Inserted, Home;
    InsertedAt(t, s, e, item);
    SameHome(hash, t[s], Inserted(t, s, e, item)[s], |t|);
    SameHome(hash, item, Inserted(t, s, e, item)[e], |t|);
    var t', chains', owner' := Inserted(t, s, e, item), chains[s := Extended(chains[s], e)], owner[e := i];
    forall x: nat, k: nat | x < |t| && k < |chains'[x]| ensures chains'[x][k] < |t| && owner'[chains'[x][k]] >= 0 {
      if x == s {
        ExtendedAt(chains[s], e, k);
      }
    }
    forall x: nat | x < |t| && owner'[x] >= 0 ensures x in chains'[Home(hash, t'[x], |t|)] {
      InExtended(chains[s], e);
      assert owner'[x] == if x == e then i else owner[x];
    }
  }

  lemma SameHome<K, V>(hash: K -> nat, a: Item<K, V>, b: Item<K, V>, size: nat)
    requires size > 0 && a.key == b.key
    ensures Home(hash, a, size) == Home(hash, b, size)
  {
  }

  lemma InExtended(chain: seq<nat>, e: nat)
    requires chain != []
    ensures e in Extended(chain, e) && forall x <- chain :: x in Extended(chain, e)
  {
    assert Extended(chain, e)[1] == e && Extended(chain, e)[0] == chain[0];
    forall x | x in chain ensures x in Extended(chain, e) {
      var k :| 0 <= k < |chain| && chain[k] == x;
      ExtendedAt(chain, e, if k == 0 then 0 else k + 1);
    }
  }

  lemma MatchedExtended<K, V>(orig: seq<Item<K, V>>, t: seq<Item<K, V>>, owner: seq<int>, place: seq<int>, s: nat, e: nat, item: Item<K, V>, i: nat)
    requires Matched(orig, t, owner, place) && s < |t| && e < |t| && s != e && i < |t| && owner[e] < 0 && place[i] < 0 && SameItem(item, orig[i])
    ensures Matched(orig, Inserted(t, s, e, item), owner[e := i], place[i := e])
  {
    hide Inserted;
    InsertedAt(t, s, e, item);
    var t', owner', place' := Inserted(t, s, e, item), owner[e := i], place[i := e];
    forall x | 0 <= x < |t'| && owner'[x] >= 0 ensures owner'[x] < |t'| && place'[owner'[x]] == x && SameItem(t'[x], orig[owner'[x]]) {
      assert owner'[x] == if x == e then i else owner[x];
    }
    forall j | 0 <= j < |t'| && place'[j] >= 0 ensures place'[j] < |t'| && owner'[place'[j]] == j {
      assert place'[j] == if j == i then e else place[j];
    }
  }

  lemma SourceStep<K, V>(orig: seq<Item<K, V>>, src: seq<Item<K, V>>, hash: K -> nat, i: nat, place: seq<int>, chains: seq<seq<nat>>,
                         s: nat, e: nat, next: nat)
    requires SourceLeft(orig, src, hash, i, place, chains) && i < |orig| && s < |orig| && chains[s] != []
    ensures SourceLeft(orig, src[i := src[i].(next := next)], hash, i + 1, place[i := e], chains[s := Extended(chains[s], e)])
  {
    hide Home;
    var place', chains' := place[i := e], chains[s := Extended(chains[s], e)];
    forall j: nat | j < |orig|
      ensures chains'[Home(hash, orig[j], |orig|)] != [] && (j < i + 1 ==> place'[j] >= 0)
      ensures j >= i + 1 ==> src[j].next == if place'[j] >= 0 then END else Home(hash, orig[j], |orig|)
    {
      assert place[j] >= 0 || place[j] < 0;
    }
  }

  /** A colliding item goes to the first empty slot, right behind the item in its home slot. */
  lemma OnePlaced<K, V>(orig: seq<Item<K, V>>, src: seq<Item<K, V>>, t: seq<Item<K, V>>, hash: K -> nat, i: nat,
                        owner: seq<int>, place: seq<int>, chains: seq<seq<nat>>, e: nat)
    requires Placing(orig, src, t, hash, i, owner, place, chains) && i < |t| && place[i] < 0 && e < |t| && owner[e] < 0
    ensures var s := src[i].next;
            && s < |t| && s != e && chains[s] != []
            && Placing(orig, src[i := src[i].(next := t[s].next)], Inserted(t, s, e, src[i]), hash, i + 1,
                       owner[e := i], place[i := e], chains[s := Extended(chains[s], e)])
  {
    hide ChainsOk, ChainsHold, Matched, SourceLeft, Home, Inserted, Extended;
    HomeSlot(orig, src, t, hash, i, owner, place, chains);
    var s, item := src[i].next, src[i];
    ChainsExtended(t, hash, chains, owner, s, e, item);
    InsertedAt(t, s, e, item);
    HoldExtended(t, hash, chains, owner, s, e, item, i);
    MatchedExtended(orig, t, owner, place, s, e, item, i);
    SourceStep(orig, src, hash, i, place, chains, s, e, t[s].next);
  }

  lemma HomeSlot<K, V>(orig: seq<Item<K, V>>, src: seq<Item<K, V>>, t: seq<Item<K, V>>, hash: K -> nat, i: nat,
                       owner: seq<int>, place: seq<int>, chains: seq<seq<nat>>)
    requires Placing(orig, src, t, hash, i, owner, place, chains) && i < |t|
    ensures |owner| == |place| == |chains| == |orig| == |src| == |t| && SameItem(src[i], orig[i])
    ensures (src[i].next == END <==> place[i] >= 0)
    ensures place[i] < 0 ==> src[i].next < |t| && Home(hash, src[i], |t|) == src[i].next && chains[src[i].next] != []
  {
    hide ChainsOk;
    assert place[i] >= 0 || place[i] < 0;
  }

  lemma NoneToPlace<K, V>(orig: seq<Item<K, V>>, src: seq<Item<K, V>>, t: seq<Item<K, V>>, hash: K -> nat, i: nat,
                          owner: seq<int>, place: seq<int>, chains: seq<seq<nat>>)
    requires Placing(orig, src, t, hash, i, owner, place, chains) && i < |t| == |place| == |orig| && place[i] >= 0
    ensures Placing(orig, src, t, hash, i + 1, owner, place, chains)
  {
    hide ChainsOk, ChainsHold, Matched, Home;
    forall j: nat | j < |orig|
      ensures chains[Home(hash, orig[j], |orig|)] != [] && (j < i + 1 ==> place[j] >= 0)
      ensures j >= i + 1 ==> src[j].next == if place[j] >= 0 then END else Home(hash, orig[j], |orig|)
    {
      assert place[j] >= 0 || place[j] < 0;
    }
  }

  /** The state of the third loop: the links of the empty slots, and as many items left as there are empty slots */
  ghost predicate Filling<K, V>(orig: seq<Item<K, V>>, src: seq<Item<K, V>>, t: seq<Item<K, V>>, hash: K -> nat, i: nat, owner: seq<int>,
                                place: seq<int>, chains: seq<seq<nat>>, first: nat, free: seq<nat>, unplaced: set<nat>, empty: set<nat>) {
    && Placing(orig, src, t, hash, i, owner, place, chains) && Balanced(owner, place, unplaced, empty)
    && FreeOk(t, first, free) && forall s: nat :: s in free <==> s in empty
  }

  lemma FreeHead<K, V>(t: seq<Item<K, V>>, first: nat, free: seq<nat>, owner: seq<int>, place: seq<int>, unplaced: set<nat>, empty: set<nat>)
    requires FreeOk(t, first, free) && Balanced(owner, place, unplaced, empty) && |t| < END && |owner| == |t|
    requires forall s: nat :: s in free <==> s in empty
    ensures first == END <==> free == []
    ensures free != [] ==> first < |t| && owner[first] < 0 && unplaced != {}
    ensures free == [] ==> unplaced == {}
  {
    if free != [] {
      assert FreeAt(t, free, 0) && first in free;
    } else {
      assert empty == {};
    }
  }

  lemma FreeRest<K, V>(t: seq<Item<K, V>>, first: nat, free: seq<nat>, s: nat, item: Item<K, V>)
    requires FreeOk(t, first, free) && free != [] && s < |t| && first < |t| && s !in free
    ensures FreeOk(Inserted(t, s, first, item), t[first].next, free[1..]) && forall x: nat :: x in free[1..] <==> x in free && x != first
  {
    hide Inserted;
    assert FreeAt(t, free, 0) && free[0] in free && free == [first] + free[1..];
    InsertedAt(t, s, first, item);
    forall k: nat | k < |free[1..]| ensures FreeAt(Inserted(t, s, first, item), free[1..], k) {
      assert FreeAt(t, free, k + 1) && free[k + 1] in free && free[k + 1] != free[0];
    }
  }

  /** While there is an empty slot, an item is left, and it comes later. */
  lemma FillingFacts<K, V>(orig: seq<Item<K, V>>, src: seq<Item<K, V>>, t: seq<Item<K, V>>, hash: K -> nat, i: nat, owner: seq<int>,
                           place: seq<int>, chains: seq<seq<nat>>, first: nat, free: seq<nat>, unplaced: set<nat>, empty: set<nat>)
    requires Filling(orig, src, t, hash, i, owner, place, chains, first, free, unplaced, empty)
    ensures |owner| == |place| == |chains| == |orig| == |src| == |t| < END && i <= |t|
    ensures (first == END <==> free == []) && (free == [] ==> unplaced == {})
    ensures free != [] ==> i < |t| && first < |t| && owner[first] < 0 && (src[i].next == END <==> place[i] >= 0)
    ensures free != [] && src[i].next != END ==> src[i].next < |t|
  {
    hide ChainsOk, ChainsHold, SameItems, FreeOk, Home;
    FreeHead(t, first, free, owner, place, unplaced, empty);
    if unplaced != {} {
      var j := AnElement(unplaced);
      assert place[j] < 0;
    }
  }

  lemma AnElement<T>(s: set<T>) returns (x: T)
    requires s != {}
    ensures x in s
  {
    x :| x in s;
  }

  /** One round of the third loop, when the item has no slot yet */
  lemma FillStep<K, V>(orig: seq<Item<K, V>>, src: seq<Item<K, V>>, t: seq<Item<K, V>>, hash: K -> nat, i: nat, owner: seq<int>,
                       place: seq<int>, chains: seq<seq<nat>>, first: nat, free: seq<nat>, unplaced: set<nat>, empty: set<nat>)
    requires Filling(orig, src, t, hash, i, owner, place, chains, first, free, unplaced, empty) && free != []
    requires |owner| == |place| == |chains| == |orig| == |src| == |t| && i < |t| && first < |t| && src[i].next != END
    ensures var s := src[i].next;
            && s < |t| && s != first && chains[s] != []
            && Filling(orig, src[i := src[i].(next := t[s].next)], Inserted(t, s, first, src[i]), hash, i + 1, owner[first := i], place[i := first],
                       chains[s := Extended(chains[s], first)], t[first].next, free[1..], unplaced - {i}, empty - {first})
  {
    hide Placing, Balanced, FreeOk, Inserted, Extended;
    FillingFacts(orig, src, t, hash, i, owner, place, chains, first, free, unplaced, empty);
    OnePlaced(orig, src, t, hash, i, owner, place, chains, first);
    SlotTaken(orig, src, t, hash, i, owner, place, chains, unplaced, empty, src[i].next);
    FreeRest(t, first, free, src[i].next, src[i]);
    OneLess(owner, place, unplaced, empty, i, first);
  }

  lemma SlotTaken<K, V>(orig: seq<Item<K, V>>, src: seq<Item<K, V>>, t: seq<Item<K, V>>, hash: K -> nat, i: nat, owner: seq<int>,
                        place: seq<int>, chains: seq<seq<nat>>, unplaced: set<nat>, empty: set<nat>, s: nat)
    requires Placing(orig, src, t, hash, i, owner, place, chains) && Balanced(owner, place, unplaced, empty)
    requires s < |t| && |chains| == |t| && chains[s] != []
    ensures s !in empty
  {
    hide SameItems, Matched, SourceLeft;
    assert ChainOk(t, hash, s, chains[s]) && owner[chains[s][0]] >= 0;
  }

  lemma FillSkip<K, V>(orig: seq<Item<K, V>>, src: seq<Item<K, V>>, t: seq<Item<K, V>>, hash: K -> nat, i: nat, owner: seq<int>,
                       place: seq<int>, chains: seq<seq<nat>>, first: nat, free: seq<nat>, unplaced: set<nat>, empty: set<nat>)
    requires Filling(orig, src, t, hash, i, owner, place, chains, first, free, unplaced, empty) && free != []
    requires |owner| == |place| == |chains| == |orig| == |src| == |t| && i < |t| && src[i].next == END
    ensures Filling(orig, src, t, hash, i + 1, owner, place, chains, first, free, unplaced, empty)
  {
    hide Placing, Balanced, FreeOk;
    FillingFacts(orig, src, t, hash, i, owner, place, chains, first, free, unplaced, empty);
    NoneToPlace(orig, src, t, hash, i, owner, place, chains);
  }

  lemma InsertedIs<K, V>(t: seq<Item<K, V>>, s: nat, e: nat, item: Item<K, V>)
    requires s < |t| && e < |t|
    ensures Inserted(t, s, e, item) == t[s := t[s].(next := e)][e := item.(next := t[s].next)]
  {
  }

  /** Places the colliding items into the empty slots. */
  method PlaceRest<K, V>(table: array<Item<K, V>>, source: array<Item<K, V>>, hash: K -> nat, first: nat, ghost orig: seq<Item<K, V>>,
                         ghost free0: seq<nat>, ghost owner0: seq<int>, ghost place0: seq<int>, ghost chains0: seq<seq<nat>>,
                         ghost unplaced0: set<nat>, ghost empty0: set<nat>)
    returns (ghost owner: seq<int>, ghost place: seq<int>, ghost chains: seq<seq<nat>>, ghost i': nat)
    requires table != source && table.Length == source.Length
    requires Filling(orig, source[..], table[..], hash, 0, owner0, place0, chains0, first, free0, unplaced0, empty0)
    modifies table, source
    ensures Placing(orig, source[..], table[..], hash, i', owner, place, chains)
    ensures |owner| == |place| == |orig| == table.Length
    ensures (forall i :: 0 <= i < |place| ==> place[i] >= 0) && forall s :: 0 <= s < |owner| ==> owner[s] >= 0
  {
    hide Filling, Inserted, Extended, Placing;
    owner, place, chains := owner0, place0, chains0;
    ghost var free, unplaced, empty := free0, unplaced0, empty0;
    var firstEmpty: nat, i := first, 0;
    FillingFacts(orig, source[..], table[..], hash, i, owner, place, chains, firstEmpty, free, unplaced, empty);
    while firstEmpty != END
      invariant 0 <= i <= table.Length
      invariant Filling(orig, source[..], table[..], hash, i, owner, place, chains, firstEmpty, free, unplaced, empty)
      decreases table.Length - i
    {
      FillingFacts(orig, source[..], table[..], hash, i, owner, place, chains, firstEmpty, free, unplaced, empty);
      var slot := source[i].next;
      if slot != END {
        FillStep(orig, source[..], table[..], hash, i, owner, place, chains, firstEmpty, free, unplaced, empty);
        owner, place, chains := owner[firstEmpty := i], place[i := firstEmpty], chains[slot := Extended(chains[slot], firstEmpty)];
        unplaced, empty, free := unplaced - {i}, empty - {firstEmpty}, free[1..];
        firstEmpty := PutBehind(table, source, i, slot, firstEmpty);
      } else {
        FillSkip(orig, source[..], table[..], hash, i, owner, place, chains, firstEmpty, free, unplaced, empty);
      }
      i := i + 1;
    }
    i' := i;
    FilledUp(orig, source[..], table[..], hash, i, owner, place, chains, firstEmpty, free, unplaced, empty);
  }

  /** Moves an item into an empty slot and links it in behind its home slot. */
  method PutBehind<K, V>(table: array<Item<K, V>>, source: array<Item<K, V>>, i: nat, slot: nat, firstEmpty: nat) returns (nextEmpty: nat)
    requires table != source && i < source.Length && slot < table.Length && firstEmpty < table.Length && slot != firstEmpty
    modifies table, source
    ensures source[..] == old(source[..])[i := old(source[i].(next := table[slot].next))]
    ensures table[..] == Inserted(old(table[..]), slot, firstEmpty, old(source[i])) && nextEmpty == old(table[firstEmpty].next)
  {
    InsertedIs(table[..], slot, firstEmpty, source[i]);
    source[i] := source[i].(next := table[slot].next);
    table[slot] := table[slot].(next := firstEmpty);
    nextEmpty := table[firstEmpty].next;
    table[firstEmpty] := source[i];
  }

  lemma FilledUp<K, V>(orig: seq<Item<K, V>>, src: seq<Item<K, V>>, t: seq<Item<K, V>>, hash: K -> nat, i: nat, owner: seq<int>,
                       place: seq<int>, chains: seq<seq<nat>>, first: nat, free: seq<nat>, unplaced: set<nat>, empty: set<nat>)
    requires Filling(orig, src, t, hash, i, owner, place, chains, first, free, unplaced, empty) && first == END
    ensures Placing(orig, src, t, hash, i, owner, place, chains)
    ensures |owner| == |place| == |orig| == |t|
    ensures (forall i :: 0 <= i < |place| ==> place[i] >= 0) && forall s :: 0 <= s < |owner| ==> owner[s] >= 0
  {
    FillingFacts(orig, src, t, hash, i, owner, place, chains, first, free, unplaced, empty);
    hide Placing, FreeOk;
    forall i | 0 <= i < |place| ensures place[i] >= 0 {
      assert i !in unplaced;
    }
    forall s | 0 <= s < |owner| ensures owner[s] >= 0 {
      assert s !in free && s !in empty;
    }
  }

  // ---------------------------------------------------------------- the whole construction

  /** Slot `place[i]` holds source item `i`, but for the link, and every slot `s` holds the one item `owner[s]`. */
  ghost predicate Rearranged<K, V>(orig: seq<Item<K, V>>, t: seq<Item<K, V>>, owner: seq<int>, place: seq<int>) {
    && |owner| == |place| == |orig| == |t|
    && (forall i {:trigger place[i]} :: 0 <= i < |t| ==> 0 <= place[i] < |t| && SameItem(t[place[i]], orig[i]) && owner[place[i]] == i)
    && forall s {:trigger owner[s]} :: 0 <= s < |t| ==> 0 <= owner[s] < |t| && place[owner[s]] == s
  }

  /** Fills a table with the items of a source of the same size: afterwards it holds each of them once, on the
      chain of its home slot. */
  method Create<K, V>(table: array<Item<K, V>>, source: array<Item<K, V>>, hash: K -> nat, blank: Item<K, V>)
    returns (ghost chains: seq<seq<nat>>, ghost owner: seq<int>, ghost place: seq<int>)
    requires table != source && table.Length == source.Length < END && blank.next == 0
    modifies table, source
    ensures Rearranged(old(source[..]), table[..], owner, place)
    ensures table.Length > 0 ==> Linked(table[..], hash, chains)
  {
    hide FirstsPlaced, Balanced, FreeOk, Filling, Placing, Linked, FirstChains;
    ghost var orig := source[..];
    if table.Length == 0 {
      return [], [], [];
    }
    forall s | 0 <= s < table.Length { table[s] := blank; }
    ghost var places, unplaced, empty;
    assert source[..] == orig;
    owner, places, unplaced, empty := PlaceFirsts(table, source, hash);
    ghost var t := table[..];
    EmptySlots(orig, source[..], t, hash, owner, places);
    ghost var free;
    var firstEmpty;
    firstEmpty, free := LinkEmpty(table, owner);
    PlacingStarts(orig, source[..], t, table[..], hash, owner, places);
    FillingStarts(orig, source[..], table[..], hash, owner, places, FirstChains(owner, |t|), firstEmpty, free, unplaced, empty);
    ghost var i;
    owner, place, chains, i := PlaceRest(table, source, hash, firstEmpty, orig, free, owner, places, FirstChains(owner, |t|), unplaced, empty);
    EverythingPlaced(orig, source[..], table[..], hash, i, owner, place, chains);
  }

  lemma EmptySlots<K, V>(orig: seq<Item<K, V>>, src: seq<Item<K, V>>, t: seq<Item<K, V>>, hash: K -> nat, owner: seq<int>, place: seq<int>)
    requires FirstsPlaced(orig, src, t, hash, |t|, owner, place)
    ensures |owner| == |t| && forall s {:trigger owner[s]} :: 0 <= s < |t| ==> (owner[s] < 0 <==> t[s].next == 0)
  {
    hide SameItems, Home;
  }

  lemma FillingStarts<K, V>(orig: seq<Item<K, V>>, src: seq<Item<K, V>>, t: seq<Item<K, V>>, hash: K -> nat, owner: seq<int>,
                            place: seq<int>, chains: seq<seq<nat>>, first: nat, free: seq<nat>, unplaced: set<nat>, empty: set<nat>)
    requires Placing(orig, src, t, hash, 0, owner, place, chains) && Balanced(owner, place, unplaced, empty) && FreeOk(t, first, free)
    requires |owner| == |t| && forall s: nat :: s in free <==> s < |t| && owner[s] < 0
    ensures Filling(orig, src, t, hash, 0, owner, place, chains, first, free, unplaced, empty)
  {
    hide Placing, FreeOk;
  }

  lemma EverythingPlaced<K, V>(orig: seq<Item<K, V>>, src: seq<Item<K, V>>, t: seq<Item<K, V>>, hash: K -> nat, i: nat,
                               owner: seq<int>, place: seq<int>, chains: seq<seq<nat>>)
    requires Placing(orig, src, t, hash, i, owner, place, chains) && |owner| == |place| == |orig| == |t|
    requires (forall i :: 0 <= i < |place| ==> place[i] >= 0) && forall s :: 0 <= s < |owner| ==> owner[s] >= 0
    ensures Rearranged(orig, t, owner, place) && Linked(t, hash, chains)
  {
    hide ChainsOk, SameItems, SourceLeft, Home;
    forall j: nat | j < |t| ensures |t| > 0 && j in chains[Home(hash, t[j], |t|)] {
      assert owner[j] >= 0;
    }
  }

  /** A key is in the table, with a value, exactly if the source had it with this value, so `Lookup` finds every item of
      the source and no other key. */
  lemma SameKeys<K, V>(orig: seq<Item<K, V>>, t: seq<Item<K, V>>, owner: seq<int>, place: seq<int>, k: K, v: V)
    requires Rearranged(orig, t, owner, place)
    ensures (exists j :: 0 <= j < |t| && t[j].key == k) <==> (exists i :: 0 <= i < |orig| && orig[i].key == k)
    ensures (exists j :: 0 <= j < |t| && t[j].key == k && t[j].value == v) <==> (exists i :: 0 <= i < |orig| && orig[i].key == k && orig[i].value == v)
    ensures |t| == |orig| && forall i, j :: 0 <= i < j < |orig| ==> place[i] != place[j]
  {
    if j :| 0 <= j < |t| && t[j].key == k && t[j].value == v {
      assert owner[j] >= 0 && place[owner[j]] == j && orig[owner[j]].key == k && orig[owner[j]].value == v;
    }
    if i :| 0 <= i < |orig| && orig[i].key == k && orig[i].value == v {
      assert t[place[i]].key == k && t[place[i]].value == v;
    }
    if j :| 0 <= j < |t| && t[j].key == k {
      assert owner[j] >= 0 && place[owner[j]] == j && orig[owner[j]].key == k;
    }
    if i :| 0 <= i < |orig| && orig[i].key == k {
      assert t[place[i]].key == k;
    }
  }
}
