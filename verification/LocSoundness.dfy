/** A hit of the location cache returns the location stored last for that program, name and kind since the
    program was last invalidated, unless a longer name was cut down to this one. */
module LocSoundness {
  import opened Bits
  import opened Bytes
  import opened LocCache
  import opened Options

  // ---- Runs -----------------------------------------------------------------------------------

  datatype Op = Put(key: Key, location: int) | Drop(program: nat)

  function Init(): Table {
    seq(SLOTS, _ => Entry(0, [], 0, false))
  }

  function But1(ops: seq<Op>): seq<Op>
    requires ops != []
  {
    ops[..|ops| - 1]
  }

  function Last(ops: seq<Op>): Op
    requires ops != []
  {
    ops[|ops| - 1]
  }

  /** The table after a sequence of operations */
  function After(ops: seq<Op>): Table
    decreases |ops|
  {
    if ops == [] then Init()
    else
      match Last(ops)
      case Put(key, location) => Insert(After(But1(ops)), key, location)
      case Drop(program) => Invalidate(After(But1(ops)), program)
  }

  /** The location stored last for a key since its program was last invalidated */
  function Latest(ops: seq<Op>, key: Key): Option<int>
    decreases |ops|
  {
    if ops == [] then None
    else
      match Last(ops)
      case Put(k, location) => if k == key then Some(location) else Latest(But1(ops), key)
      case Drop(program) => if program == key.program then None else Latest(But1(ops), key)
  }

  /** Does a name of 64 bytes or more cut down to this one? */
  predicate CutsTo(k: Key, key: Key) {
    k.program == key.program && k.isAttrib == key.isAttrib && |k.name| >= NAME_MAX && Truncated(k.name) == key.name
  }

  /** Such a name was stored since the program was last invalidated. */
  predicate CutDown(ops: seq<Op>, key: Key)
    decreases |ops|
  {
    if ops == [] then false
    else
      match Last(ops)
      case Put(k, _) => CutsTo(k, key) || CutDown(But1(ops), key)
      case Drop(program) => program != key.program && CutDown(But1(ops), key)
  }

  predicate ValidOps(ops: seq<Op>) {
    forall i :: 0 <= i < |ops| && ops[i].Put? ==> ops[i].key.Valid()
  }

  // ---- The first match in probe order -----------------------------------------------------------

  /** The first entry from the i-th probe on that matches the key, holes ignored */
  function FirstMatch(t: Table, key: Key, i: nat): Option<int>
    requires i <= SLOTS
    decreases SLOTS - i
  {
    if i == SLOTS then None
    else if Matches(t[Probe(Hash(key), i)], key) then Some(t[Probe(Hash(key), i)].location)
    else FirstMatch(t, key, i + 1)
  }

  predicate Stored(t: Table) {
    forall s :: 0 <= s < SLOTS ==> |t[s].name| < NAME_MAX && forall i :: 0 <= i < |t[s].name| ==> t[s].name[i] != 0
  }

  lemma MatchesIs(e: Entry, key: Key)
    requires key.Valid() && |e.name| < NAME_MAX && forall i :: 0 <= i < |e.name| ==> e.name[i] != 0
    ensures Matches(e, key) <==> e.program == key.program && e.isAttrib == key.isAttrib && e.name == key.name
  {
    StrnEqualIs(e.name, key.name, 0, NAME_MAX);
  }

  /** Tables that agree on the entries that match agree on the first of them. */
  lemma {:induction false} SameFirst(t: Table, t': Table, key: Key, i: nat)
    requires i <= SLOTS
    requires forall s :: 0 <= s < SLOTS ==>
      (Matches(t[s], key) <==> Matches(t'[s], key)) && (Matches(t[s], key) ==> t[s].location == t'[s].location)
    ensures FirstMatch(t, key, i) == FirstMatch(t', key, i)
    decreases SLOTS - i
  {
    if i < SLOTS {
      SameFirst(t, t', key, i + 1);
    }
  }

  lemma {:induction false} NoMatch(t: Table, key: Key, i: nat)
    requires i <= SLOTS && forall s :: 0 <= s < SLOTS ==> !Matches(t[s], key)
    ensures FirstMatch(t, key, i) == None
    decreases SLOTS - i
  {
    if i < SLOTS {
      NoMatch(t, key, i + 1);
    }
  }

  /** The first match from probe i on, if the probes before k match nothing and probe k does */
  lemma {:induction false} MatchAt(t: Table, key: Key, i: nat, k: nat)
    requires i <= k < SLOTS && Matches(t[Probe(Hash(key), k)], key)
    requires forall j :: i <= j < k ==> !Matches(t[Probe(Hash(key), j)], key)
    ensures FirstMatch(t, key, i) == Some(t[Probe(Hash(key), k)].location)
    decreases k - i
  {
    if i < k {
      MatchAt(t, key, i + 1, k);
    }
  }

  /** A hit is the first match, although the search may stop at a hole before later ones. */
  lemma HitIsFirst(t: Table, key: Key)
    requires Lookup(t, key).Some?
    ensures Lookup(t, key) == FirstMatch(t, key, 0) && key.program != 0
  {
    MatchAt(t, key, 0, FirstUsable(t, key, Hash(key), 0));
  }

  // ---- Invariant --------------------------------------------------------------------------------

  predicate NewestFirst(ops: seq<Op>, t: Table, key: Key) {
    key.Valid() && key.program != 0 && !CutDown(ops, key) ==>
      FirstMatch(t, key, 0) == None || FirstMatch(t, key, 0) == Latest(ops, key)
  }

  /** A stored key becomes its own first match. */
  lemma OwnInsert(t: Table, key: Key, location: int)
    requires key.Valid() && key.program != 0 && |key.name| < NAME_MAX && Stored(t)
    requires FirstUsable(t, key, Hash(key), 0) < SLOTS
    ensures FirstMatch(Insert(t, key, location), key, 0) == Some(location)
  {
    var t', k, h := Insert(t, key, location), FirstUsable(t, key, Hash(key), 0), Hash(key);
    MatchesIs(t'[Probe(h, k)], key);
    forall j | 0 <= j < k ensures !Matches(t'[Probe(h, j)], key) {
      assert t[Probe(h, j)].program != 0 && !Matches(t[Probe(h, j)], key);
    }
    MatchAt(t', key, 0, k);
  }

  /** Storing another key changes nothing about this one, unless it is cut down to it. */
  lemma OtherInsert(t: Table, k: Key, location: int, key: Key)
    requires k.Valid() && key.Valid() && key.program != 0 && Stored(t) && k != key && !CutsTo(k, key)
    ensures FirstMatch(Insert(t, k, location), key, 0) == FirstMatch(t, key, 0)
  {
    var t', u := Insert(t, k, location), FirstUsable(t, k, Hash(k), 0);
    if u < SLOTS {
      var s := Probe(Hash(k), u);
      MatchesIs(t[s], k);
      MatchesIs(t[s], key);
      MatchesIs(t'[s], key);
    }
    SameFirst(t, t', key, 0);
  }

  /** Invalidating a program forgets its keys and no others. */
  lemma InvalidateFirst(t: Table, program: nat, key: Key)
    requires key.program != 0
    ensures FirstMatch(Invalidate(t, program), key, 0)
      == if program == key.program then None else FirstMatch(t, key, 0)
  {
    if program == key.program {
      NoMatch(Invalidate(t, program), key, 0);
    } else {
      SameFirst(t, Invalidate(t, program), key, 0);
    }
  }

  lemma {:induction false} RunStores(ops: seq<Op>)
    requires ValidOps(ops)
    ensures Stored(After(ops))
    decreases |ops|
  {
    if ops != [] {
      RunStores(But1(ops));
    }
  }

  /** On every run the first match in probe order is the newest. */
  lemma {:induction false} RunKeepsNewestFirst(ops: seq<Op>, key: Key)
    requires ValidOps(ops)
    ensures NewestFirst(ops, After(ops), key)
    decreases |ops|
  {
    if ops == [] {
      if key.program != 0 {
        NoMatch(Init(), key, 0);
      }
    } else if key.Valid() && key.program != 0 && !CutDown(ops, key) {
      var before := But1(ops);
      RunStores(before);
      match Last(ops)
      case Put(k, location) =>
        RunKeepsNewestFirst(before, key);
        if k != key {
          OtherInsert(After(before), k, location, key);
        } else {
          OwnOrNothing(After(before), key, location);
        }
      case Drop(program) =>
        InvalidateFirst(After(before), program, key);
        if program != key.program {
          RunKeepsNewestFirst(before, key);
        }
    }
  }

  /** After storing a key its first match is the new location, or there is none. */
  lemma OwnOrNothing(t: Table, key: Key, location: int)
    requires key.Valid() && key.program != 0 && Stored(t)
    ensures var m := FirstMatch(Insert(t, key, location), key, 0); m == None || m == Some(location)
  {
    var t', k := Insert(t, key, location), FirstUsable(t, key, Hash(key), 0);
    if |key.name| >= NAME_MAX {
      forall s | 0 <= s < SLOTS ensures !Matches(t'[s], key) {
        MatchesIs(t'[s], key);
      }
      NoMatch(t', key, 0);
    } else if k < SLOTS {
      OwnInsert(t, key, location);
    } else {
      FullFirst(t, key, 0);
    }
  }

  /** A full table without the key */
  lemma {:induction false} FullFirst(t: Table, key: Key, i: nat)
    requires i <= SLOTS && FirstUsable(t, key, Hash(key), i) == SLOTS
    ensures FirstMatch(t, key, i) == None
    decreases SLOTS - i
  {
    if i < SLOTS {
      FullFirst(t, key, i + 1);
    }
  }

  // ---- What a caller gets -------------------------------------------------------------------------

  /** After any sequence of insertions and invalidations, a hit returns the location stored last for that
      program, name and kind since the program was last invalidated. Names of 64 bytes or more and program
      0 never hit; a name of 63 bytes is safe as long as no longer name was cut down to it. */
  lemma HitsAreNewest(ops: seq<Op>, key: Key)
    requires ValidOps(ops) && key.Valid() && Lookup(After(ops), key).Some?
    ensures key.program != 0 && |key.name| < NAME_MAX
    ensures Lookup(After(ops), key) == Latest(ops, key) || (|key.name| == NAME_MAX - 1 && CutDown(ops, key))
  {
    var t := After(ops);
    HitIsFirst(t, key);
    RunStores(ops);
    RunKeepsNewestFirst(ops, key);
    MatchesIs(t[Probe(Hash(key), FirstUsable(t, key, Hash(key), 0))], key);
    if CutDown(ops, key) {
      CutDownLength(ops, key);
    }
  }

  lemma {:induction false} CutDownLength(ops: seq<Op>, key: Key)
    requires CutDown(ops, key)
    ensures |key.name| == NAME_MAX - 1
    decreases |ops|
  {
    if !(Last(ops).Put? && CutsTo(Last(ops).key, key)) {
      CutDownLength(But1(ops), key);
    }
  }

  lemma ProbeIs(h: nat, i: nat)
    ensures Probe(h, i) == (h % SLOTS + i) % SLOTS
  {
    assert Pow2(6) == 64;
    assert Pow2(12) == SLOTS;
    AndMask(h, 12);
    AndMask(And(h, SLOTS - 1) + i, 12);
  }

  /** The probes visit every slot. */
  lemma SomeProbe(h: nat, s: nat) returns (i: nat)
    requires s < SLOTS
    ensures i < SLOTS && Probe(h, i) == s
  {
    var m := h % SLOTS;
    i := if m <= s then s - m else s + SLOTS - m;
    ProbeIs(h, i);
  }

  /** There is room for a key exactly when some slot is empty or holds it already. */
  lemma RoomIs(t: Table, key: Key)
    ensures FirstUsable(t, key, Hash(key), 0) < SLOTS
      <==> exists s :: 0 <= s < SLOTS && (t[s].program == 0 || Matches(t[s], key))
  {
    var h := Hash(key);
    var k := FirstUsable(t, key, h, 0);
    if k < SLOTS {
      var s := Probe(h, k);
      assert t[s].program == 0 || Matches(t[s], key);
    }
    forall s | 0 <= s < SLOTS && (t[s].program == 0 || Matches(t[s], key)) ensures k < SLOTS {
      var i := SomeProbe(h, s);
      assert Probe(h, i) == s;
      assert !(i < k);
    }
  }

  /** A location just stored is found again exactly when there was room for it. */
  lemma StoredIsFound(t: Table, key: Key, location: int)
    requires Stored(t) && key.Valid() && key.program != 0 && |key.name| < NAME_MAX
    ensures Lookup(Insert(t, key, location), key) ==
      if exists s :: 0 <= s < SLOTS && (t[s].program == 0 || Matches(t[s], key)) then Some(location) else None
  {
    RoomIs(t, key);
    var t', h, k := Insert(t, key, location), Hash(key), FirstUsable(t, key, Hash(key), 0);
    if k < SLOTS {
      MatchesIs(t'[Probe(h, k)], key);
      forall j | 0 <= j < k ensures t'[Probe(h, j)].program != 0 && !Matches(t'[Probe(h, j)], key) {
        assert t[Probe(h, j)].program != 0 && !Matches(t[Probe(h, j)], key);
      }
      UsableAt(t', key, h, 0, k);
    }
  }

  lemma {:induction false} UsableAt(t: Table, key: Key, h: nat, i: nat, k: nat)
    requires i <= k < SLOTS && Matches(t[Probe(h, k)], key)
    requires forall j :: i <= j < k ==> t[Probe(h, j)].program != 0 && !Matches(t[Probe(h, j)], key)
    ensures FirstUsable(t, key, h, i) == k
    decreases k - i
  {
    if i < k {
      UsableAt(t, key, h, i + 1, k);
    }
  }

  // ---- Why the length matters ---------------------------------------------------------------------

  function Bs(n: nat): (name: Name)
    ensures |name| == n
  {
    seq(n, _ => 98)
  }

  lemma ModTwice(x: nat)
    ensures x % U32 % SLOTS == x % SLOTS
  {
    assert x == U32 * (x / U32) + x % U32;
    assert x == SLOTS * (0x10_0000 * (x / U32) + (x % U32) / SLOTS) + x % U32 % SLOTS;
    ModUnique(x, SLOTS, 0x10_0000 * (x / U32) + (x % U32) / SLOTS, x % U32 % SLOTS);
  }

  /** One more 'b' leaves slot 1039 in place. */
  lemma HashStep(h: nat)
    requires h % SLOTS == 1039
    ensures (h * 131 % U32 + 98) % U32 % SLOTS == 1039
  {
    ModTwice(h * 131);
    ModTwice(h * 131 % U32 + 98);
    var q := h / SLOTS;
    assert h * 131 == SLOTS * (131 * q + 33) + 941;
    ModUnique(h * 131, SLOTS, 131 * q + 33, 941);
    var g := h * 131 % U32;
    assert g % SLOTS == 941;
    ModUnique(g + 98, SLOTS, g / SLOTS, 1039);
  }

  lemma {:induction false} HashOfBs(n: nat)
    ensures Hash(Key(2495, Bs(n), false)) % SLOTS == 1039
  {
    if n > 0 {
      HashOfBs(n - 1);
      assert Bs(n)[..n - 1] == Bs(n - 1);
      HashStep(Hash(Key(2495, Bs(n - 1), false)));
    }
  }

  /** Two keys of one hash slot: a name of 64 bytes and its first 63. */
  lemma CollidingKeys() returns (long: Key, short: Key)
    ensures long.Valid() && short.Valid() && short.program != 0 && CutsTo(long, short)
    ensures Hash(long) % SLOTS == Hash(short) % SLOTS
  {
    var n := NAME_MAX;
    HashOfBs(n);
    HashOfBs(n - 1);
    assert Truncated(Bs(n)) == Bs(n - 1);
    long, short := Key(2495, Bs(n), false), Key(2495, Bs(n - 1), false);
  }

  /** If such a long name is all that was stored, its prefix is found although it never was. */
  lemma CutNameHits(long: Key, short: Key, location: int)
    requires long.Valid() && short.Valid() && short.program != 0 && CutsTo(long, short)
    requires Hash(long) % SLOTS == Hash(short) % SLOTS
    ensures var ops := [Put(long, location)];
      ValidOps(ops) && CutDown(ops, short) && Lookup(After(ops), short) == Some(location) && Latest(ops, short) == None
  {
    var ops := [Put(long, location)];
    assert But1(ops) == [];
    ProbeIs(Hash(long), 0);
    ProbeIs(Hash(short), 0);
    EmptyInsert(Init(), long, location);
    var t := Insert(Init(), long, location);
    MatchesIs(t[Probe(Hash(short), 0)], short);
    FirstHit(t, short);
  }

  lemma EmptyInsert(t: Table, key: Key, location: int)
    requires t[Probe(Hash(key), 0)].program == 0
    ensures Insert(t, key, location)
      == t[Probe(Hash(key), 0) := Entry(key.program, Truncated(key.name), location, key.isAttrib)]
  {
  }

  lemma FirstHit(t: Table, key: Key)
    requires key.program != 0 && Matches(t[Probe(Hash(key), 0)], key)
    ensures Lookup(t, key) == Some(t[Probe(Hash(key), 0)].location)
  {
  }

  lemma CutNameIsFound() returns (ops: seq<Op>, key: Key)
    ensures ValidOps(ops) && key.Valid() && Lookup(After(ops), key) == Some(7) && Latest(ops, key) == None
  {
    var long, short := CollidingKeys();
    CutNameHits(long, short, 7);
    ops, key := [Put(long, 7)], short;
  }

  // ---- Exactly the names of 63 bytes ----------------------------------------------------------------

  function OneMore(h: nat, b: nat): nat {
    (h * 131 % U32 + b) % U32
  }

  lemma HashIs(key: Key, name: Name, b: nat)
    requires key.name == name + [b]
    ensures Hash(key) == OneMore(Hash(key.(name := name)), b)
  {
    assert key.name[..|key.name| - 1] == name;
  }

  /** The hash of a name that is longer by one byte */
  lemma HashOneMore(key: Key, b: nat)
    ensures Hash(key.(name := key.name + [b])) == OneMore(Hash(key), b)
  {
    HashIs(key.(name := key.name + [b]), key.name, b);
    assert key.(name := key.name + [b]).(name := key.name) == key;
  }

  lemma OneMoreMod(h: nat, b: nat)
    ensures OneMore(h, b) % SLOTS == (h * 131 + b) % SLOTS
  {
    ModTwice(h * 131 % U32 + b);
    ModTwice(h * 131);
    var k := Shift(h * 131 % U32, h * 131);
    Unshift(h * 131 + b, h * 131 % U32 + b, k);
  }

  /** ... and by two */
  lemma HashTwoMore(key: Key, b: nat, c: nat)
    ensures Hash(key.(name := key.name + [b, c])) % SLOTS == (Hash(key) * 17161 + 131 * b + c) % SLOTS
  {
    var one := key.(name := key.name + [b]);
    assert one.name + [c] == key.name + [b, c];
    HashOneMore(key, b);
    HashOneMore(one, c);
    assert one.(name := one.name + [c]) == key.(name := key.name + [b, c]);
    TwoMoreMod(Hash(key), b, c);
  }

  lemma TwoMoreMod(h: nat, b: nat, c: nat)
    ensures OneMore(OneMore(h, b), c) % SLOTS == (h * 17161 + 131 * b + c) % SLOTS
  {
    var g := OneMore(h, b);
    OneMoreMod(h, b);
    OneMoreMod(g, c);
    var k := Shift(g, h * 131 + b);
    assert g * 131 + c == h * 17161 + 131 * b + c + SLOTS * (131 * k);
    Unshift(h * 17161 + 131 * b + c, g * 131 + c, 131 * k);
  }

  lemma Shift(a: int, b: int) returns (k: int)
    requires a % SLOTS == b % SLOTS
    ensures a == b + SLOTS * k
  {
    k := a / SLOTS - b / SLOTS;
  }

  lemma Unshift(a: nat, b: nat, k: int)
    requires b == a + SLOTS * k
    ensures b % SLOTS == a % SLOTS
  {
    ModUnique(b, SLOTS, a / SLOTS + k, a % SLOTS);
  }

  /** Two bytes, none of them zero, that make up any amount from 132 to 33536 */
  lemma TwoBytes(e: nat) returns (b: nat, c: nat)
    requires 132 <= e <= 33536
    ensures 1 <= b < 256 && 1 <= c < 256 && 131 * b + c == e
  {
    b := (e - 1) / 131;
    c := e - 131 * b;
  }

  /** Every name can be made longer by two bytes without leaving its hash slot. */
  lemma LongerName(key: Key) returns (long: Key)
    requires key.Valid()
    ensures long.Valid() && long.program == key.program && long.isAttrib == key.isAttrib
    ensures |long.name| == |key.name| + 2 && long.name[..|key.name|] == key.name
    ensures Hash(long) % SLOTS == Hash(key) % SLOTS
  {
    var h := Hash(key);
    var d := SLOTS - h * 17160 % SLOTS;
    var b, c := TwoBytes(SLOTS + d);
    long := key.(name := key.name + [b, c]);
    HashTwoMore(key, b, c);
    Unshift(h, h * 17161 + 131 * b + c, h * 17160 / SLOTS + 2);
  }

  /** A lookup that hits although another location, or none, was stored last. */
  predicate WrongHit(ops: seq<Op>, key: Key) {
    Lookup(After(ops), key).Some? && Lookup(After(ops), key) != Latest(ops, key)
  }

  /** For every key: some sequence of operations leads to a wrong hit exactly when the name has 63 bytes (and the
      program is not 0, for which there are no hits). */
  lemma WrongHitExactly(key: Key)
    requires key.Valid()
    ensures (exists ops :: ValidOps(ops) && WrongHit(ops, key)) <==> |key.name| == NAME_MAX - 1 && key.program != 0
  {
    if |key.name| == NAME_MAX - 1 && key.program != 0 {
      var long := LongerName(key);
      assert Truncated(long.name) == key.name;
      CutNameHits(long, key, 7);
      assert ValidOps([Put(long, 7)]) && WrongHit([Put(long, 7)], key);
    }
    if ops :| ValidOps(ops) && WrongHit(ops, key) {
      HitsAreNewest(ops, key);
    }
  }
}
