/** A JavaScript `Map` from file id to file record, as the list of its
    entries in insertion order. Every `set` in the updater stores a record
    under its own id, so the key of an entry is its record's `id`. `Set` on
    a present key replaces the value and keeps the key's first insertion
    position; on an absent key it appends. `Map.prototype.values()` is the
    list itself. */
module FileMap {
  import opened Wrappers
  import opened Records

  function Ids(m: seq<FileRecord>): set<int>
  {
    set i | 0 <= i < |m| :: m[i].id
  }

  ghost predicate DistinctIds(m: seq<FileRecord>)
  {
    forall i, j :: 0 <= i < j < |m| ==> m[i].id != m[j].id
  }

  /** The position of key `id`, the first one if it occurred twice. */
  function Find(m: seq<FileRecord>, id: int): (r: Option<nat>)
    ensures r.Some? ==> r.value < |m| && m[r.value].id == id
    ensures r.Some? ==> forall j :: 0 <= j < r.value ==> m[j].id != id
    ensures r.None? ==> forall j :: 0 <= j < |m| ==> m[j].id != id
  {
    if m == [] then None
    else if m[0].id == id then Some(0)
    else match Find(m[1..], id)
      case None => None
      case Some(i) => Some(i + 1)
  }

  /** `map.get(id)`; `None` stands for `undefined`. */
  function Get(m: seq<FileRecord>, id: int): Option<FileRecord>
  {
    match Find(m, id)
    case None => None
    case Some(i) => Some(m[i])
  }

  /** `map.set(f.id, f)`. */
  function Set(m: seq<FileRecord>, f: FileRecord): seq<FileRecord>
  {
    match Find(m, f.id)
    case None => m + [f]
    case Some(i) => m[i := f]
  }

  /** `for (const f of fs) map.set(f.id, f)`. */
  function SetAll(m: seq<FileRecord>, fs: seq<FileRecord>): seq<FileRecord>
  {
    if fs == [] then m else Set(SetAll(m, fs[..|fs| - 1]), fs[|fs| - 1])
  }

  /** The last record of `fs` with id `k`: the one a run of `set`s leaves. */
  function LastWithId(fs: seq<FileRecord>, k: int): (r: Option<FileRecord>)
    ensures r.Some? ==> r.value in fs && r.value.id == k
    ensures r.None? <==> k !in Ids(fs)
    ensures r.Some? ==> exists i :: 0 <= i < |fs| && fs[i] == r.value && forall j :: i < j < |fs| ==> fs[j].id != k
  {
    if fs == [] then None
    else if fs[|fs| - 1].id == k then Some(fs[|fs| - 1])
    else
      IdsOfAppend(fs[..|fs| - 1], fs[|fs| - 1]);
      LastWithId(fs[..|fs| - 1], k)
  }

  function FirstSome<T>(a: Option<T>, b: Option<T>): Option<T>
  {
    if a.Some? then a else b
  }

  lemma IdsOfAppend(m: seq<FileRecord>, f: FileRecord)
    ensures Ids(m + [f]) == Ids(m) + {f.id}
  {
    var r := m + [f];
    assert forall i :: 0 <= i < |m| ==> r[i] == m[i];
    assert r[|m|] == f;
  }

  lemma InIds(m: seq<FileRecord>, f: FileRecord)
    requires f in m
    ensures f.id in Ids(m)
  {
    var i :| 0 <= i < |m| && m[i] == f;
    assert m[i].id in Ids(m);
  }

  /** In a list with distinct keys, the position of a key is where it is. */
  lemma FindAt(m: seq<FileRecord>, k: int, i: nat)
    requires DistinctIds(m)
    requires i < |m| && m[i].id == k
    ensures Find(m, k) == Some(i) && Get(m, k) == Some(m[i])
  {
  }

  lemma FindAbsent(m: seq<FileRecord>, k: int)
    requires k !in Ids(m)
    ensures Find(m, k) == None && Get(m, k) == None
  {
  }

  /** `set` keeps every entry's key where it was, possibly appending one. */
  lemma SetShape(m: seq<FileRecord>, f: FileRecord)
    requires DistinctIds(m)
    ensures var r := Set(m, f);
      && DistinctIds(r)
      && Ids(r) == Ids(m) + {f.id}
      && |m| <= |r|
      && (forall i :: 0 <= i < |m| ==> r[i].id == m[i].id)
      && (forall i :: 0 <= i < |m| && m[i].id != f.id ==> r[i] == m[i])
      && (exists i :: 0 <= i < |r| && r[i] == f)
  {
    var r := Set(m, f);
    match Find(m, f.id) {
      case None =>
        IdsOfAppend(m, f);
        assert r[|m|] == f;
      case Some(p) =>
        assert r[p] == f;
        assert Ids(r) == Ids(m) by {
          forall i | 0 <= i < |m| ensures m[i].id in Ids(r) {
            assert r[i].id == m[i].id;
          }
        }
    }
  }

  /** `set` keeps keys distinct, adds exactly its key, makes `get` of that
      key return the new record, leaves every other key's record alone and
      moves no key that was already present. */
  lemma SetSpec(m: seq<FileRecord>, f: FileRecord)
    requires DistinctIds(m)
    ensures DistinctIds(Set(m, f))
    ensures Ids(Set(m, f)) == Ids(m) + {f.id}
    ensures Get(Set(m, f), f.id) == Some(f)
    ensures forall k :: k != f.id ==> Get(Set(m, f), k) == Get(m, k)
    ensures forall k :: k in Ids(m) ==> Find(Set(m, f), k) == Find(m, k)
  {
    var r := Set(m, f);
    SetShape(m, f);
    var q :| 0 <= q < |r| && r[q] == f;
    FindAt(r, f.id, q);
    forall k | k in Ids(m)
      ensures Find(r, k) == Find(m, k) && (k != f.id ==> Get(r, k) == Get(m, k))
    {
      var i :| 0 <= i < |m| && m[i].id == k;
      FindAt(m, k, i);
      FindAt(r, k, i);
    }
    forall k | k != f.id && k !in Ids(m)
      ensures Get(r, k) == Get(m, k)
    {
      FindAbsent(m, k);
      FindAbsent(r, k);
    }
  }

  /** A run of `set`s: keys stay distinct, the keys are the old ones plus
      those of `fs`, and every key maps to the last record of `fs` with that
      key, or to its old record when `fs` has none. */
  lemma {:induction false} SetAllSpec(m: seq<FileRecord>, fs: seq<FileRecord>)
    requires DistinctIds(m)
    ensures DistinctIds(SetAll(m, fs))
    ensures Ids(SetAll(m, fs)) == Ids(m) + Ids(fs)
    ensures forall k :: Get(SetAll(m, fs), k) == FirstSome(LastWithId(fs, k), Get(m, k))
  {
    if fs != [] {
      var init, last := fs[..|fs| - 1], fs[|fs| - 1];
      assert fs == init + [last];
      SetAllSpec(m, init);
      SetSpec(SetAll(m, init), last);
      IdsOfAppend(init, last);
    }
  }
}
