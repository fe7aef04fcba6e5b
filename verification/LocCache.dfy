/** stub/gles2_stub.c: the cache of uniform and attribute locations. Open addressing over 4096 slots; a
    program's entries are dropped by punching holes, so probe chains break and names appear twice. */
module LocCache {
  import opened Bits
  import opened Bytes
  import opened Options

  const SLOTS: nat := 4096
  const NAME_MAX: nat := 64

  type Name = seq<nat>

  /** LocCacheEntry; name is the C string stored, program 0 means empty */
  datatype Entry = Entry(program: nat, name: Name, location: int, isAttrib: bool)

  datatype Key = Key(program: nat, name: Name, isAttrib: bool) {
    /** A GLuint and a C string of bytes */
    predicate Valid() {
      program < U32 && forall i :: 0 <= i < |name| ==> 0 < name[i] < 256
    }
  }

  // ---- Strings ------------------------------------------------------------------------------

  /** The i-th byte of a C string, 0 at its end */
  function ByteAt(s: Name, i: nat): nat {
    if i < |s| then s[i] else 0
  }

  /** strncmp(a, b, n) == 0, comparing from position i on */
  predicate StrnEqual(a: Name, b: Name, i: nat, n: nat)
    decreases n - i
  {
    i >= n || (ByteAt(a, i) == ByteAt(b, i) && (ByteAt(a, i) == 0 || StrnEqual(a, b, i + 1, n)))
  }

  /** strncpy of at most 63 bytes, terminated */
  function Truncated(name: Name): Name {
    if |name| < NAME_MAX then name else name[..NAME_MAX - 1]
  }

  lemma {:induction false} StrnEqualIs(a: Name, b: Name, i: nat, n: nat)
    requires |a| < n && i <= |a| && i <= |b| && a[..i] == b[..i]
    requires (forall j :: 0 <= j < |a| ==> a[j] != 0) && (forall j :: 0 <= j < |b| ==> b[j] != 0)
    ensures StrnEqual(a, b, i, n) <==> a == b
    decreases |a| - i
  {
    if i < |a| && i < |b| {
      if a[i] == b[i] {
        assert a[..i + 1] == a[..i] + [a[i]] && b[..i + 1] == b[..i] + [b[i]];
        StrnEqualIs(a, b, i + 1, n);
      }
    } else if i == |a| == |b| {
      assert a[..i] == a && b[..i] == b;
    }
  }

  // ---- Hash and probe order -----------------------------------------------------------------

  /** loc_hash, in 32-bit unsigned arithmetic */
  function Hash(key: Key): (h: nat)
    ensures h < U32
    decreases |key.name|
  {
    if key.name == [] then
      (key.program * 2654435761 % U32 + (if key.isAttrib then 0x9e3779b9 else 0)) % U32
    else
      (Hash(key.(name := key.name[..|key.name| - 1])) * 131 % U32 + key.name[|key.name| - 1]) % U32
  }

  /** Slot of the i-th probe: (h + i) & LOC_CACHE_MASK, with h already masked */
  function Probe(h: nat, i: nat): (s: nat)
    ensures s < SLOTS
  {
    And(And(h, SLOTS - 1) + i, SLOTS - 1)
  }

  predicate Matches(e: Entry, key: Key) {
    e.program == key.program && e.isAttrib == key.isAttrib && StrnEqual(e.name, key.name, 0, NAME_MAX)
  }

  type Table = t: seq<Entry> | |t| == SLOTS witness seq(SLOTS, _ => Entry(0, [], 0, false))

  /** First probe from the i-th on that finds an empty slot or the key, or SLOTS */
  function FirstUsable(t: Table, key: Key, h: nat, i: nat): (k: nat)
    requires i <= SLOTS
    ensures i <= k <= SLOTS
    ensures k < SLOTS ==> t[Probe(h, k)].program == 0 || Matches(t[Probe(h, k)], key)
    ensures forall j :: i <= j < k ==> t[Probe(h, j)].program != 0 && !Matches(t[Probe(h, j)], key)
    decreases SLOTS - i
  {
    if i == SLOTS || t[Probe(h, i)].program == 0 || Matches(t[Probe(h, i)], key) then i
    else FirstUsable(t, key, h, i + 1)
  }

  /** loc_cache_lookup */
  function Lookup(t: Table, key: Key): Option<int> {
    var h := Hash(key);
    var k := FirstUsable(t, key, h, 0);
    if k == SLOTS || t[Probe(h, k)].program == 0 then None else Some(t[Probe(h, k)].location)
  }

  /** loc_cache_insert; a full table drops the entry */
  function Insert(t: Table, key: Key, location: int): Table {
    var h := Hash(key);
    var k := FirstUsable(t, key, h, 0);
    if k == SLOTS then t
    else t[Probe(h, k) := Entry(key.program, Truncated(key.name), location, key.isAttrib)]
  }

  /** loc_cache_invalidate_program */
  function Invalidate(t: Table, program: nat): Table {
    seq(SLOTS, i requires 0 <= i < SLOTS => if t[i].program == program then t[i].(program := 0) else t[i])
  }

  // ---- The cache as the stub keeps it ---------------------------------------------------------

  class Cache {
    const entries: array<Entry>

    ghost predicate Valid() {
      entries.Length == SLOTS
    }

    ghost function View(): Table
      reads entries
      requires Valid()
    {
      entries[..]
    }

    constructor ()
      ensures Valid() && fresh(entries) && View() == seq(SLOTS, _ => Entry(0, [], 0, false))
    {
      entries := new Entry[SLOTS](_ => Entry(0, [], 0, false));
    }

    static method LocHash(key: Key) returns (h: nat)
      ensures h == Hash(key)
    {
      h := (key.program * 2654435761 % U32 + (if key.isAttrib then 0x9e3779b9 else 0)) % U32;
      var i := 0;
      while i < |key.name|
        invariant i <= |key.name| && h == Hash(key.(name := key.name[..i]))
      {
        h := (h * 131 % U32 + key.name[i]) % U32;
        i := i + 1;
        assert key.name[..i][..i - 1] == key.name[..i - 1];
      }
      assert key.name[..i] == key.name;
    }

    method LocCacheLookup(key: Key) returns (r: Option<int>)
      requires Valid()
      ensures r == Lookup(View(), key)
    {
      var h := LocHash(key);
      var i := 0;
      while i < SLOTS
        invariant i <= SLOTS && FirstUsable(View(), key, h, 0) == FirstUsable(View(), key, h, i)
      {
        var e := entries[Probe(h, i)];
        if e.program == 0 {
          return None;
        }
        if Matches(e, key) {
          return Some(e.location);
        }
        i := i + 1;
      }
      return None;
    }

    method LocCacheInsert(key: Key, location: int)
      requires Valid()
      modifies entries
      ensures View() == Insert(old(View()), key, location)
    {
      var h := LocHash(key);
      var i := 0;
      while i < SLOTS
        invariant i <= SLOTS && View() == old(View())
        invariant FirstUsable(View(), key, h, 0) == FirstUsable(View(), key, h, i)
      {
        var e := entries[Probe(h, i)];
        if e.program == 0 || Matches(e, key) {
          entries[Probe(h, i)] := Entry(key.program, Truncated(key.name), location, key.isAttrib);
          return;
        }
        i := i + 1;
      }
    }

    method LocCacheInvalidateProgram(program: nat)
      requires Valid()
      modifies entries
      ensures View() == Invalidate(old(View()), program)
    {
      var i := 0;
      while i < SLOTS
        invariant i <= SLOTS
        invariant forall j :: 0 <= j < i ==> entries[j] == Invalidate(old(View()), program)[j]
        invariant forall j :: i <= j < SLOTS ==> entries[j] == old(entries[j])
      {
        if entries[i].program == program {
          entries[i] := entries[i].(program := 0);
        }
        i := i + 1;
      }
    }
  }
}
