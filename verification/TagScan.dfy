/** Scanning the tags of a feature for a series of keys (src/match/MatcherEngine.cpp, lines 15-68 and 180-231;
    src/feature/TagTablePtr.cpp, lines 88-105). Memory is a sequence of 16-bit words. */
module TagScans {
  import opened SelectorClauses

  /** The kind is that of the value: 0 narrow number, 1 global string, 2 wide number, 3 local string. */
  datatype Tag = Tag(code: nat, kind: nat, value: nat)

  /** A local key refers to its string. */
  datatype LocalTag = LocalTag(pointer: nat, kind: nat, value: nat)

  const LAST := 0x8000

  predicate Fits(t: Tag) { t.code < 8192 && t.kind < 4 }

  function ValueAt(mem: seq<nat>, q: nat, wide: bool): nat
    requires q + (if wide then 1 else 0) < |mem|
  {
    mem[q] + if wide then 0x1_0000 * mem[q + 1] else 0
  }

  function KeyBits(t: Tag, last: bool): nat { 4 * t.code + t.kind + if last then LAST else 0 }

  function Size(kind: nat): nat { if kind >= 2 then 3 else 2 }

  /** Global tags lie in memory from `p` upward; the key of the last one is flagged. */
  ghost predicate Holds(mem: seq<nat>, p: nat, tags: seq<Tag>)
    decreases |tags|
  {
    tags == [] || (
      var t := tags[0];
      && Fits(t) && p + Size(t.kind) <= |mem|
      && mem[p] == KeyBits(t, |tags| == 1) && ValueAt(mem, p + 1, t.kind >= 2) == t.value
      && Holds(mem, p + Size(t.kind), tags[1..])
    )
  }

  function LocalKeyBits(t: LocalTag, last: bool): nat { 8 * t.pointer + t.kind + if last then 4 else 0 }

  /** Local tags lie in memory from `p` downward, the value of each below its two-word key. */
  ghost predicate LocalsHold(mem: seq<nat>, p: int, tags: seq<LocalTag>)
    decreases |tags|
  {
    tags == [] || (
      var t := tags[0];
      && t.kind < 4 && p + 1 < |mem| && p - Size(t.kind) + 1 >= 0
      && ValueAt(mem, p, true) == LocalKeyBits(t, |tags| == 1) && ValueAt(mem, p - Size(t.kind) + 1, t.kind >= 2) == t.value
      && LocalsHold(mem, p - Size(t.kind) - 1, tags[1..])
    )
  }

  ghost predicate Sorted(tags: seq<Tag>) { forall i, j :: 0 <= i < j < |tags| ==> tags[i].code < tags[j].code }

  ghost predicate LocalsSorted(tags: seq<LocalTag>, names: nat -> string) {
    forall i, j :: 0 <= i < j < |tags| ==> CompareNames(names(tags[i].pointer), names(tags[j].pointer)) < 0
  }

  // ---------------------------------------------------------------- where scans end

  /** The scan for a global key ends at the first tag with this or a higher key, or the last tag. */
  function StopAt(tags: seq<Tag>, i: nat, code: nat): (s: nat)
    requires i < |tags|
    ensures i <= s < |tags|
    decreases |tags| - i
  {
    if tags[i].code >= code || i == |tags| - 1 then i else StopAt(tags, i + 1, code)
  }

  lemma {:induction false} StopDecides(tags: seq<Tag>, i: nat, code: nat)
    requires Sorted(tags) && i < |tags| && forall j :: 0 <= j < i ==> tags[j].code < code
    ensures var s := StopAt(tags, i, code);
            (tags[s].code == code <==> exists j :: 0 <= j < |tags| && tags[j].code == code) && forall j :: 0 <= j < s ==> tags[j].code < code
    decreases |tags| - i
  {
    if tags[i].code < code && i < |tags| - 1 {
      StopDecides(tags, i + 1, code);
    }
  }

  /** The answers to a series of scans: the first starts at the first tag, each other where the one before ended. */
  function Answers(tags: seq<Tag>, i: nat, codes: seq<nat>): (answers: seq<bool>)
    requires i < |tags|
    ensures |answers| == |codes|
    decreases |codes|
  {
    if codes == [] then []
    else
      var s := StopAt(tags, i, codes[0]);
      [tags[s].code == codes[0]] + Answers(tags, s, codes[1..])
  }

  ghost predicate CodesAscend(codes: seq<nat>) { forall i, j :: 0 <= i < j < |codes| ==> codes[i] < codes[j] }

  /** In ascending order, every key is answered as a lookup would answer it. */
  lemma {:induction false} AnswersAreLookups(tags: seq<Tag>, i: nat, codes: seq<nat>, k: nat)
    requires Sorted(tags) && i < |tags| && CodesAscend(codes) && k < |codes|
    requires forall j :: 0 <= j < i ==> tags[j].code < codes[0]
    ensures Answers(tags, i, codes)[k] <==> exists j :: 0 <= j < |tags| && tags[j].code == codes[k]
    decreases |codes|
  {
    StopDecides(tags, i, codes[0]);
    if k > 0 {
      AnswersAreLookups(tags, StopAt(tags, i, codes[0]), codes[1..], k - 1);
    }
  }

  // ---------------------------------------------------------------- local keys

  function FindFrom(tags: seq<LocalTag>, names: nat -> string, i: nat, name: string): (f: nat)
    requires i <= |tags|
    ensures i <= f <= |tags|
    ensures f < |tags| ==> names(tags[f].pointer) == name
    decreases |tags| - i
  {
    if i == |tags| || names(tags[i].pointer) == name then i else FindFrom(tags, names, i + 1, name)
  }

  lemma FindStep(tags: seq<LocalTag>, names: nat -> string, i: nat, name: string)
    requires i < |tags|
    ensures FindFrom(tags, names, i, name) == if names(tags[i].pointer) == name then i else FindFrom(tags, names, i + 1, name)
    ensures FindFrom(tags, names, |tags|, name) == |tags|
  {
  }

  predicate HasName(tags: seq<LocalTag>, names: nat -> string, name: string) {
    exists j :: 0 <= j < |tags| && names(tags[j].pointer) == name
  }

  lemma {:induction false} FindDecides(tags: seq<LocalTag>, names: nat -> string, i: nat, name: string)
    requires i <= |tags| && forall j :: 0 <= j < i ==> names(tags[j].pointer) != name
    ensures FindFrom(tags, names, i, name) < |tags| <==> exists j :: 0 <= j < |tags| && names(tags[j].pointer) == name
    decreases |tags| - i
  {
    if i < |tags| && names(tags[i].pointer) != name {
      FindDecides(tags, names, i + 1, name);
    }
  }

  /** The next tag to look at, and whether the key found last is flagged as the last one */
  datatype Cursor = Cursor(at: nat, flagged: bool)

  function ScanLocals(tags: seq<LocalTag>, names: nat -> string, c: Cursor, name: string): (r: (Cursor, bool))
    requires c.at <= |tags|
    ensures r.0.at <= |tags|
  {
    var f := FindFrom(tags, names, c.at, name);
    if f < |tags| then (Cursor(f + 1, f + 1 == |tags|), true) else (c, false)
  }

  /** The answers to LOCAL_KEY ops: a flagged cursor answers no without looking. */
  function NextLocals(tags: seq<LocalTag>, names: nat -> string, c: Cursor, keys: seq<string>): (answers: seq<bool>)
    requires c.at <= |tags|
    ensures |answers| == |keys|
    decreases |keys|
  {
    if keys == [] then []
    else if c.flagged then [false] + NextLocals(tags, names, c, keys[1..])
    else
      var r := ScanLocals(tags, names, c, keys[0]);
      [r.1] + NextLocals(tags, names, r.0, keys[1..])
  }

  /** The answers to a FIRST_LOCAL_KEY op and the LOCAL_KEY ops that follow. What the op before them has left as the
      current key decides whether the cursor is flagged. */
  function LocalAnswers(tags: seq<LocalTag>, names: nat -> string, stale: bool, keys: seq<string>): (answers: seq<bool>)
    ensures |answers| == |keys|
  {
    if keys == [] then []
    else
      var r := ScanLocals(tags, names, Cursor(0, stale), keys[0]);
      [r.1] + NextLocals(tags, names, r.0, keys[1..])
  }

  ghost predicate NamesAscend(keys: seq<string>) { forall i, j :: 0 <= i < j < |keys| ==> CompareNames(keys[i], keys[j]) < 0 }

  /** All tags that were passed precede the keys still to be asked for, and only the last tag flags the cursor. */
  ghost predicate Current(tags: seq<LocalTag>, names: nat -> string, c: Cursor, keys: seq<string>) {
    && c.at <= |tags| && (c.flagged <==> c.at == |tags|)
    && forall j, k :: 0 <= j < c.at && 0 <= k < |keys| ==> CompareNames(names(tags[j].pointer), keys[k]) < 0
  }

  lemma ScannedIsCurrent(tags: seq<LocalTag>, names: nat -> string, c: Cursor, keys: seq<string>)
    requires LocalsSorted(tags, names) && NamesAscend(keys) && keys != [] && c.at <= |tags|
    requires forall j, k :: 0 <= j < c.at && 0 <= k < |keys| ==> CompareNames(names(tags[j].pointer), keys[k]) < 0
    ensures var r := ScanLocals(tags, names, c, keys[0]);
            (r.1 <==> HasName(tags, names, keys[0])) && ((r.1 || (c.flagged <==> c.at == |tags|)) ==> Current(tags, names, r.0, keys[1..]))
  {
    forall j | 0 <= j < c.at ensures names(tags[j].pointer) != keys[0] {
      NamesCompareEqual(names(tags[j].pointer), keys[0]);
    }
    FindDecides(tags, names, c.at, keys[0]);
    var r := ScanLocals(tags, names, c, keys[0]);
    if r.1 {
      var f := r.0.at - 1;
      forall j, k | 0 <= j < r.0.at && 0 <= k < |keys[1..]| ensures CompareNames(names(tags[j].pointer), keys[1..][k]) < 0 {
        assert keys[1..][k] == keys[k + 1];
        if j < f {
          NamesCompareOn(names(tags[j].pointer), keys[0], keys[k + 1]);
        }
      }
    }
  }

  lemma {:induction false} NextAreLookups(tags: seq<LocalTag>, names: nat -> string, c: Cursor, keys: seq<string>, k: nat)
    requires LocalsSorted(tags, names) && NamesAscend(keys) && Current(tags, names, c, keys) && k < |keys|
    ensures NextLocals(tags, names, c, keys)[k] <==> HasName(tags, names, keys[k])
    decreases |keys|
  {
    ScannedIsCurrent(tags, names, c, keys);
    if k > 0 {
      NextAreLookups(tags, names, if c.flagged then c else ScanLocals(tags, names, c, keys[0]).0, keys[1..], k - 1);
    }
  }

  lemma {:induction false} FlaggedFindsNone(tags: seq<LocalTag>, names: nat -> string, c: Cursor, keys: seq<string>, k: nat)
    requires c.flagged && c.at <= |tags| && k < |keys|
    ensures !NextLocals(tags, names, c, keys)[k]
    decreases |keys|
  {
    if k > 0 {
      FlaggedFindsNone(tags, names, c, keys[1..], k - 1);
    }
  }

  /** In ascending order, local keys are answered as a lookup would answer them, except for one case: the first key is
      absent, and the key that an op before it has left as the current one bears the bit that flags a last local key.
      Then all further keys count as absent. */
  lemma LocalAnswersExact(tags: seq<LocalTag>, names: nat -> string, stale: bool, keys: seq<string>, k: nat)
    requires tags != [] && LocalsSorted(tags, names) && NamesAscend(keys) && k < |keys|
    ensures LocalAnswers(tags, names, stale, keys)[k]
            <==> HasName(tags, names, keys[k]) && (k == 0 || !stale || HasName(tags, names, keys[0]))
  {
    var c := Cursor(0, stale);
    ScannedIsCurrent(tags, names, c, keys);
    var r := ScanLocals(tags, names, c, keys[0]);
    if k > 0 {
      if r.1 || !stale {
        NextAreLookups(tags, names, r.0, keys[1..], k - 1);
      } else {
        FlaggedFindsNone(tags, names, r.0, keys[1..], k - 1);
      }
    }
  }

  /** So the series is answered correctly as a whole exactly if no key that is present hides behind an absent first key
      and a stale flag. */
  lemma LocalAnswersRight(tags: seq<LocalTag>, names: nat -> string, stale: bool, keys: seq<string>)
    requires tags != [] && LocalsSorted(tags, names) && NamesAscend(keys)
    ensures (forall k :: 0 <= k < |keys| ==> (LocalAnswers(tags, names, stale, keys)[k] <==> HasName(tags, names, keys[k])))
            <==> (!stale || keys == [] || HasName(tags, names, keys[0]) || forall k :: 0 <= k < |keys| ==> !HasName(tags, names, keys[k]))
  {
    forall k | 0 <= k < |keys|
      ensures LocalAnswers(tags, names, stale, keys)[k]
              <==> HasName(tags, names, keys[k]) && (k == 0 || !stale || HasName(tags, names, keys[0])) {
      LocalAnswersExact(tags, names, stale, keys, k);
    }
  }

  /** What a series of scans for global keys leaves as the current key depends on the last of them alone. */
  lemma {:induction false} StopsOn(tags: seq<Tag>, i: nat, code: nat, later: nat)
    requires i < |tags| && code <= later
    ensures StopAt(tags, StopAt(tags, i, code), later) == StopAt(tags, i, later)
    decreases |tags| - i
  {
    if tags[i].code < code && i < |tags| - 1 {
      StopsOn(tags, i + 1, code, later);
    }
  }

  /** A feature with the global key 1 and the local key "b", asked for [1][!a][b]: the scan for 1 leaves a key with an
      odd code, hence "b" counts as absent, though the feature has it. */
  lemma GapRejectsWrongly(names: nat -> string, p: nat)
    requires p != 0 && names(p) == "b"
    ensures var globals, locals := [Tag(1, 1, 0)], [LocalTag(p, 0, 0)];
            var stale := globals[StopAt(globals, 0, 1)].code % 2 == 1;
            && Answers(globals, 0, [1]) == [true] && NamesAscend(["a", "b"])
            && HasName(locals, names, "b") && LocalAnswers(locals, names, stale, ["a", "b"]) == [false, false]
  {
    var locals := [LocalTag(p, 0, 0)];
    assert locals[0].pointer == p;
    LocalAnswersExact(locals, names, true, ["a", "b"], 0);
    LocalAnswersExact(locals, names, true, ["a", "b"], 1);
  }

  // ---------------------------------------------------------------- the engine

  class MatcherEngine {
    const mem: seq<nat>
    const pTagTable: nat
    const names: nat -> string
    ghost const globals: seq<Tag>
    ghost const locals: seq<LocalTag>
    var pTag: int
    var tagKey: nat
    var valueOfs: int
    ghost var at: nat

    ghost predicate Table()
    {
      globals != [] && Holds(mem, pTagTable, globals) && LocalsHold(mem, pTagTable - 2, locals)
    }

    ghost predicate AtGlobal()
      reads this
    {
      at < |globals| && pTag >= 0 && Holds(mem, pTag, globals[at..])
    }

    ghost predicate Flagged()
      reads this
    {
      tagKey / 4 % 2 == 1
    }

    /** Past the last local tag, the current key is its key. */
    ghost predicate AtLocal()
      reads this
    {
      at <= |locals| && LocalsHold(mem, pTag, locals[at..]) && (at == |locals| ==> Flagged())
    }

    ghost function LocalCursor(): Cursor
      reads this
    {
      Cursor(at, Flagged())
    }

    /** What the load ops read: the kind of the value and the value itself */
    ghost predicate Loads(kind: nat, value: nat)
      reads this
    {
      tagKey % 4 == kind && 0 <= pTag - valueOfs && pTag - valueOfs + (if kind >= 2 then 1 else 0) < |mem|
      && ValueAt(mem, pTag - valueOfs, kind >= 2) == value
    }

    constructor (mem: seq<nat>, pTagTable: nat, names: nat -> string, ghost globals: seq<Tag>, ghost locals: seq<LocalTag>, tagKey: nat)
      requires globals != [] && Holds(mem, pTagTable, globals) && LocalsHold(mem, pTagTable - 2, locals)
      ensures Table() && this.globals == globals && this.locals == locals && this.names == names && this.tagKey == tagKey
    {
      this.mem, this.pTagTable, this.names, this.globals, this.locals := mem, pTagTable, names, globals, locals;
      this.tagKey := tagKey;
    }

    method ScanGlobalKeys(code: nat) returns (matched: bool)
      requires AtGlobal() && code < 8192 && valueOfs == -1
      modifies this`pTag, this`tagKey, this`at
      ensures AtGlobal() && at == StopAt(globals, old(at), code)
      ensures matched <==> globals[at].code == code
      ensures Flagged() <==> globals[at].code % 2 == 1
      ensures Loads(globals[at].kind, globals[at].value)
    {
      hide Holds, StopAt, KeyBits;
      var operand := 4 * code;
      while true
        invariant AtGlobal() && StopAt(globals, at, code) == StopAt(globals, old(at), code)
        decreases |globals| - at
      {
        TagAt(mem, pTag, globals, at);
        StopStep(globals, at, code);
        var key := mem[pTag];
        KeyBitsTell(globals[at], at + 1 == |globals|, code);
        var step := 2 + key / 2 % 2;
        if key >= operand {
          tagKey := key;
          return key % 0x8000 - key % 4 == operand;
        }
        pTag := pTag + step;
        at := at + 1;
      }
    }

    method FirstGlobalKey(code: nat) returns (matched: bool)
      requires Table() && code < 8192
      modifies this
      ensures AtGlobal() && valueOfs == -1 && at == StopAt(globals, 0, code)
      ensures matched <==> globals[at].code == code
      ensures Flagged() <==> globals[at].code % 2 == 1
      ensures Loads(globals[at].kind, globals[at].value)
    {
      pTag := pTagTable;
      valueOfs := -1;
      at := 0;
      assert globals[0..] == globals;
      matched := ScanGlobalKeys(code);
    }

    /** Finds the key, and moves past its tag, or stays where it is. */
    method ScanLocalKeys(name: string) returns (matched: bool)
      requires at < |locals| && LocalsHold(mem, pTag, locals[at..]) && valueOfs == -2
      modifies this`pTag, this`tagKey, this`at
      ensures at <= |locals| && LocalsHold(mem, pTag, locals[at..]) && (at == |locals| ==> Flagged())
      ensures (LocalCursor(), matched) == ScanLocals(locals, names, old(LocalCursor()), name)
      ensures matched ==> at > 0 && Loads(locals[at - 1].kind, locals[at - 1].value)
    {
      hide LocalsHold, LocalKeyBits, FindFrom;
      var pTagOld := pTag;
      ghost var atOld := at;
      while true
        invariant at < |locals| && LocalsHold(mem, pTag, locals[at..]) && tagKey == old(tagKey)
        invariant FindFrom(locals, names, at, name) == FindFrom(locals, names, atOld, name)
        decreases |locals| - at
      {
        LocalTagAt(mem, pTag, locals, at);
        FindStep(locals, names, at, name);
        var key := ValueAt(mem, pTag, true);
        LocalKeyBitsTell(locals[at], at + 1 == |locals|);
        pTag := pTag - 3 - key / 2 % 2;
        at := at + 1;
        if names(key / 8) == name {
          tagKey := key % 0x1_0000;
          return true;
        }
        if key / 4 % 2 == 1 {
          pTag := pTagOld;
          at := atOld;
          return false;
        }
      }
    }

    method FirstLocalKey(name: string) returns (matched: bool)
      requires Table() && locals != []
      modifies this
      ensures AtLocal() || (at == 0 && LocalsHold(mem, pTag, locals))
      ensures valueOfs == -2
      ensures (LocalCursor(), matched) == ScanLocals(locals, names, Cursor(0, old(Flagged())), name)
      ensures matched ==> at > 0 && Loads(locals[at - 1].kind, locals[at - 1].value)
    {
      pTag := pTagTable - 2;
      valueOfs := -2;
      at := 0;
      assert locals[0..] == locals;
      matched := ScanLocalKeys(name);
    }

    method LocalKey(name: string) returns (matched: bool)
      requires AtLocal() && valueOfs == -2
      modifies this`pTag, this`tagKey, this`at
      ensures AtLocal()
      ensures (LocalCursor(), matched) == if old(Flagged()) then (old(LocalCursor()), false) else ScanLocals(locals, names, old(LocalCursor()), name)
      ensures matched ==> at > 0 && Loads(locals[at - 1].kind, locals[at - 1].value)
    {
      if tagKey / 4 % 2 == 1 {
        return false;
      }
      matched := ScanLocalKeys(name);
    }
  }

  lemma TagAt(mem: seq<nat>, p: nat, tags: seq<Tag>, i: nat)
    requires i < |tags| && Holds(mem, p, tags[i..])
    ensures var t := tags[i];
            && Fits(t) && p + Size(t.kind) <= |mem| && mem[p] == KeyBits(t, i + 1 == |tags|)
            && ValueAt(mem, p + 1, t.kind >= 2) == t.value && Holds(mem, p + Size(t.kind), tags[i + 1..]) && mem[p] < 0x1_0000
  {
    assert tags[i..][1..] == tags[i + 1..];
  }

  lemma LocalTagAt(mem: seq<nat>, p: int, tags: seq<LocalTag>, i: nat)
    requires i < |tags| && LocalsHold(mem, p, tags[i..])
    ensures var t := tags[i];
            && t.kind < 4 && p + 1 < |mem| && p - Size(t.kind) + 1 >= 0
            && ValueAt(mem, p, true) == LocalKeyBits(t, i + 1 == |tags|)
            && ValueAt(mem, p - Size(t.kind) + 1, t.kind >= 2) == t.value && LocalsHold(mem, p - Size(t.kind) - 1, tags[i + 1..])
  {
    assert tags[i..][1..] == tags[i + 1..];
  }

  lemma KeyBitsTell(t: Tag, last: bool, code: nat)
    requires Fits(t) && code < 8192
    ensures var key := KeyBits(t, last);
            && key % 4 == t.kind && 2 + key / 2 % 2 == Size(t.kind) && key / 4 % 2 == t.code % 2
            && (key >= 4 * code <==> last || t.code >= code) && (key % 0x8000 - key % 4 == 4 * code <==> t.code == code)
  {
    var h, b := t.code / 2, t.code % 2;
    var key := KeyBits(t, last);
    LowBits(key, h + (if last then 0x1000 else 0), 4 * b + t.kind);
    By15Bits(key, if last then 1 else 0, 4 * t.code + t.kind);
    LowPart(b, t.kind);
  }

  lemma LowPart(b: nat, kind: nat)
    requires b < 2 && kind < 4
    ensures (4 * b + kind) % 4 == kind && (4 * b + kind) / 2 % 2 == kind / 2 && (4 * b + kind) / 4 % 2 == b
  {
  }

  lemma By2(x: nat, q: nat, r: nat)
    requires x == 2 * q + r && r < 2
    ensures x / 2 == q && x % 2 == r
  {
  }

  lemma By4(x: nat, q: nat, r: nat)
    requires x == 4 * q + r && r < 4
    ensures x / 4 == q && x % 4 == r
  {
  }

  lemma LowBits(x: nat, q: nat, r: nat)
    requires x == 8 * q + r && r < 8
    ensures x % 4 == r % 4 && x / 2 % 2 == r / 2 % 2 && x / 4 % 2 == r / 4
    ensures x / 8 == q && x % 8 == r
  {
    By4(x, 2 * q + r / 4, r % 4);
    By2(x, 4 * q + r / 2, r % 2);
    By2(2 * q + r / 4, q, r / 4);
    By2(4 * q + r / 2, 2 * q + r / 4, r / 2 % 2);
  }

  lemma By15Bits(x: nat, q: nat, r: nat)
    requires x == 0x8000 * q + r && r < 0x8000
    ensures x % 0x8000 == r
  {
  }

  lemma By16Bits(x: nat, q: nat, r: nat)
    requires x == 0x1_0000 * q + r && r < 0x1_0000
    ensures x % 0x1_0000 == r && x / 0x1_0000 == q
  {
  }

  lemma Halves(x: nat, key: nat, high: nat)
    requires x == key + 0x1_0000 * high && key < 0x1_0000
    ensures x % 0x1_0000 == key && x / 0x1_0000 == high && x % 0x8000 == key % 0x8000
  {
    By16Bits(x, high, key);
    var q, r := if key < 0x8000 then 0 else 1, if key < 0x8000 then key else key - 0x8000;
    By15Bits(key, q, r);
    By15Bits(x, 2 * high + q, r);
  }

  /** A 32-bit word and its lower half agree on the low bits. */
  lemma LowWord(x: nat, key: nat, high: nat)
    requires x == key + 0x1_0000 * high && key < 0x1_0000
    ensures x % 0x1_0000 == key && x / 0x1_0000 == high && x % 0x8000 == key % 0x8000
    ensures x % 4 == key % 4 && x / 2 % 2 == key / 2 % 2 && x / 4 % 2 == key / 4 % 2
  {
    Halves(x, key, high);
    var q, r := key / 8, key % 8;
    LowBits(key, q, r);
    LowBits(x, q + 0x2000 * high, r);
  }

  lemma LocalKeyBitsTell(t: LocalTag, last: bool)
    requires t.kind < 4
    ensures var key := LocalKeyBits(t, last);
            && key / 8 == t.pointer && key % 4 == t.kind && 3 + key / 2 % 2 == Size(t.kind) + 1
            && key / 4 % 2 == (if last then 1 else 0)
            && key % 0x1_0000 % 4 == t.kind && key % 0x1_0000 / 4 % 2 == key / 4 % 2
  {
    var key := LocalKeyBits(t, last);
    LowBits(key, t.pointer, t.kind + if last then 4 else 0);
    LowWord(key, key % 0x1_0000, key / 0x1_0000);
  }

  // ---------------------------------------------------------------- lookup of a single key

  lemma StopStep(tags: seq<Tag>, i: nat, code: nat)
    requires i < |tags|
    ensures StopAt(tags, i, code) == if tags[i].code >= code || i == |tags| - 1 then i else StopAt(tags, i + 1, code)
  {
  }

  datatype TagBits = NoTag | TagBits(value: nat, tag: nat)

  method GetGlobalKeyValue(mem: seq<nat>, table: nat, ghost tags: seq<Tag>, code: nat) returns (r: TagBits)
    requires tags != [] && Holds(mem, table, tags) && code < 8192
    ensures var t := tags[StopAt(tags, 0, code)];
            if t.code == code
            then r.TagBits? && r.tag % 4 == t.kind && (t.kind < 2 ==> r.tag / 0x1_0000 == t.value)
                 && r.value + Size(t.kind) - 1 <= |mem| && ValueAt(mem, r.value, t.kind >= 2) == t.value
            else r.NoTag?
  {
    hide Holds, StopAt, KeyBits;
    var p: nat := table;
    ghost var i: nat := 0;
    assert tags[0..] == tags;
    while true
      invariant i < |tags| && Holds(mem, p, tags[i..]) && StopAt(tags, i, code) == StopAt(tags, 0, code)
      decreases |tags| - i
    {
      TagAt(mem, p, tags, i);
      KeyBitsTell(tags[i], i + 1 == |tags|, code);
      StopStep(tags, i, code);
      var tag := ValueAt(mem, p, true);
      LowWord(tag, mem[p], mem[p + 1]);
      if tag % 0x1_0000 >= 4 * code {
        if tag % 0x8000 - tag % 4 != 4 * code {
          return NoTag;
        }
        return TagBits(p + 1, tag);
      }
      p := p + 2 + tag / 2 % 2;
      i := i + 1;
    }
  }
}
