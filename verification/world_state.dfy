/** The world-state store of WebSocketService: `worldState.users`, an array of
    viewpoints searched with `findIndex` by `id`, grown with `push`, updated by
    index assignment and shrunk with `splice`. */
module WorldState {
  import opened Wrappers
  import opened JsText

  /** Everything of a viewpoint except its identity (display name, position,
      rotation, audio channel). The server never looks inside. */
  type Fields(==)

  /** A viewpoint. `fields` is None for the connect-time placeholder `{ id }`. */
  datatype Pov = Pov(id: JsString, fields: Option<Fields>)

  predicate HasId(users: seq<Pov>, id: JsString) {
    exists k :: 0 <= k < |users| && users[k].id == id
  }

  /** At most one entry per identity. */
  predicate UniqueIds(users: seq<Pov>) {
    forall i, j :: 0 <= i < j < |users| ==> users[i].id != users[j].id
  }

  /** `users.findIndex(u => u.id === id)`: the first matching index, or -1. */
  function FindIndex(users: seq<Pov>, id: JsString): (i: int)
    ensures -1 <= i < |users|
    ensures i == -1 <==> !HasId(users, id)
    ensures 0 <= i ==> users[i].id == id && forall k :: 0 <= k < i ==> users[k].id != id
    decreases |users|
  {
    if |users| == 0 then -1
    else if users[0].id == id then 0
    else
      var j := FindIndex(users[1..], id);
      if j == -1 then -1 else j + 1
  }

  /** The first entry holding `id` is the one found. */
  lemma FindIndexFirst(users: seq<Pov>, id: JsString, i: int)
    requires 0 <= i < |users| && users[i].id == id
    requires forall k :: 0 <= k < i ==> users[k].id != id
    ensures FindIndex(users, id) == i
  {
  }

  /** With one entry per identity, the entry holding `id` is the one found. */
  lemma FindIndexUnique(users: seq<Pov>, i: int)
    requires UniqueIds(users) && 0 <= i < |users|
    ensures FindIndex(users, users[i].id) == i
  {
  }

  /** The world-state update of `onMessage`: a viewpoint with a new identity
      is pushed at the end, one with a known identity replaces the entry at
      that index as a whole. */
  function Upsert(users: seq<Pov>, user: Pov): (r: seq<Pov>)
    ensures user in r
    ensures HasId(users, user.id) ==> |r| == |users|
    ensures !HasId(users, user.id) ==> |r| == |users| + 1
  {
    var i := FindIndex(users, user.id);
    if i == -1 then users + [user]
    else assert users[i := user][i] == user; users[i := user]
  }

  /** A new identity is appended: one more entry, the old ones untouched. */
  lemma UpsertAppendsNew(users: seq<Pov>, user: Pov)
    requires !HasId(users, user.id)
    ensures var r := Upsert(users, user);
      |r| == |users| + 1 && r[|users|] == user && r[..|users|] == users
  {
  }

  /** A known identity is replaced wholesale at the index `findIndex` gives:
      nothing of the old entry survives, and no other entry moves or
      changes. With one entry per identity that is the identity's own index
      (FindIndexUnique). */
  lemma UpsertReplacesExisting(users: seq<Pov>, user: Pov)
    requires HasId(users, user.id)
    ensures var r := Upsert(users, user); var i := FindIndex(users, user.id);
      && 0 <= i < |users| && users[i].id == user.id
      && |r| == |users| && r[i] == user
      && forall k :: 0 <= k < |r| && k != i ==> r[k] == users[k]
  {
  }

  /** Upsert keeps one entry per identity. */
  lemma UpsertKeepsUnique(users: seq<Pov>, user: Pov)
    ensures UniqueIds(users) ==> UniqueIds(Upsert(users, user))
  {
    var r := Upsert(users, user);
    var i := FindIndex(users, user.id);
    if UniqueIds(users) {
      forall a, b | 0 <= a < b < |r|
        ensures r[a].id != r[b].id
      {
        if i == -1 && b == |users| {
          assert r[a] == users[a];
        }
      }
    }
  }

  /** After an upsert the identities present are the old ones plus the new
      viewpoint's, and the viewpoint is the only entry with its identity. */
  lemma UpsertContents(users: seq<Pov>, user: Pov)
    requires UniqueIds(users)
    ensures var r := Upsert(users, user);
      && (forall id :: HasId(r, id) <==> HasId(users, id) || id == user.id)
      && (forall k :: 0 <= k < |r| && r[k].id == user.id ==> r[k] == user)
  {
    var r := Upsert(users, user);
    var i := FindIndex(users, user.id);
    UpsertKeepsUnique(users, user);
    forall id
      ensures HasId(r, id) <==> HasId(users, id) || id == user.id
    {
      if HasId(users, id) {
        var k :| 0 <= k < |users| && users[k].id == id;
        assert r[k].id == id;
      }
      if id == user.id {
        assert user in r;
      }
      if HasId(r, id) {
        var k :| 0 <= k < |r| && r[k].id == id;
        if k != i && k < |users| { assert r[k] == users[k]; }
      }
    }
    forall k | 0 <= k < |r| && r[k].id == user.id
      ensures r[k] == user
    {
    }
  }

  /** Two updates for one identity leave exactly the second: the last write
      wins and nothing is merged from the first. */
  lemma {:induction false} UpsertLastWins(users: seq<Pov>, v1: Pov, v2: Pov)
    requires v1.id == v2.id
    ensures Upsert(Upsert(users, v1), v2) == Upsert(users, v2)
  {
    var u1 := Upsert(users, v1);
    var i := FindIndex(users, v1.id);
    var j := if i == -1 then |users| else i;
    assert u1[j] == v1;
    assert forall k :: 0 <= k < j ==> u1[k] == users[k];
    FindIndexFirst(u1, v1.id, j);
  }

  // ---------------------------------------------------------------------
  // Removal on close.

  function Min(a: int, b: int): int { if a < b then a else b }
  function Max(a: int, b: int): int { if a < b then b else a }

  /** `xs.splice(start, deleteCount)` without inserted items, as defined for
      Array.prototype.splice in ECMA-262: a negative start counts from the
      end, both start and count are clamped to the array. */
  function Splice<T>(xs: seq<T>, start: int, deleteCount: int): (r: seq<T>)
    ensures |xs| - Max(deleteCount, 0) <= |r| <= |xs|
  {
    var len := |xs|;
    var actualStart := if start < 0 then Max(len + start, 0) else Min(start, len);
    var actualDelete := Min(Max(deleteCount, 0), len - actualStart);
    xs[..actualStart] + xs[actualStart + actualDelete..]
  }

  /** `splice(i, 1)` with an index inside the array removes that element. */
  lemma SpliceAt<T>(xs: seq<T>, i: int)
    requires 0 <= i < |xs|
    ensures Splice(xs, i, 1) == xs[..i] + xs[i + 1..]
  {
  }

  /** `splice(-1, 1)` removes the last element, and does nothing to an empty
      array. */
  lemma SpliceMinusOne<T>(xs: seq<T>)
    ensures |xs| > 0 ==> Splice(xs, -1, 1) == xs[..|xs| - 1]
    ensures |xs| == 0 ==> Splice(xs, -1, 1) == []
  {
  }

  /** The close handler as written: `users.splice(users.findIndex(u => u.id
      === key), 1)`. */
  function CloseRemoval(users: seq<Pov>, key: JsString): (r: seq<Pov>)
    ensures |r| == if |users| == 0 then 0 else |users| - 1
  {
    Splice(users, FindIndex(users, key), 1)
  }

  /** Deleting the one entry holding `users[i].id` forgets that identity
      and keeps every other entry. */
  lemma DeleteAtContents(users: seq<Pov>, i: int)
    requires UniqueIds(users) && 0 <= i < |users|
    ensures !HasId(users[..i] + users[i + 1..], users[i].id)
    ensures forall p :: p in users[..i] + users[i + 1..] <==> p in users && p.id != users[i].id
  {
    var key := users[i].id;
    var r := users[..i] + users[i + 1..];
    forall k | 0 <= k < |r|
      ensures r[k].id != key
    {
      if k < i { assert r[k] == users[k]; } else { assert r[k] == users[k + 1]; }
    }
    forall p
      ensures p in r <==> p in users && p.id != key
    {
      if p in users && p.id != key {
        var k :| 0 <= k < |users| && users[k] == p;
        if k < i { assert r[k] == p; } else { assert r[k - 1] == p; }
      }
      if p in r {
        var k :| 0 <= k < |r| && r[k] == p;
        if k < i { assert users[k] == p; } else { assert users[k + 1] == p; }
      }
    }
  }

  /** With the identity present, exactly its entry goes and the others keep
      their order; nothing with that identity is left. */
  lemma CloseRemovesPresent(users: seq<Pov>, key: JsString)
    requires UniqueIds(users) && HasId(users, key)
    ensures var i := FindIndex(users, key);
      && CloseRemoval(users, key) == users[..i] + users[i + 1..]
      && !HasId(CloseRemoval(users, key), key)
      && (forall p :: p in CloseRemoval(users, key) <==> p in users && p.id != key)
  {
    var i := FindIndex(users, key);
    SpliceAt(users, i);
    DeleteAtContents(users, i);
  }

  /** With the identity absent, `findIndex` gives -1 and `splice(-1, 1)`
      drops the last entry, whoever it belongs to. */
  lemma CloseAbsentDropsLast(users: seq<Pov>, key: JsString)
    requires !HasId(users, key)
    ensures |users| > 0 ==> CloseRemoval(users, key) == users[..|users| - 1]
    ensures |users| == 0 ==> CloseRemoval(users, key) == []
  {
    SpliceMinusOne(users);
  }

  /** The concrete case: two viewpoints stored, a third session that never
      sent one closes, and the second viewpoint is lost. */
  lemma CloseAbsentExample(a: Pov, b: Pov, key: JsString)
    requires a.id != key && b.id != key && a.id != b.id
    ensures CloseRemoval([a, b], key) == [a]
    ensures b !in CloseRemoval([a, b], key)
  {
    CloseAbsentDropsLast([a, b], key);
    assert [a, b][..1] == [a];
  }

  /** Removal keeps one entry per identity. */
  lemma CloseKeepsUnique(users: seq<Pov>, key: JsString)
    requires UniqueIds(users)
    ensures UniqueIds(CloseRemoval(users, key))
  {
    var i := FindIndex(users, key);
    var r := CloseRemoval(users, key);
    var j := if i == -1 then |users| - 1 else i;
    if |users| > 0 {
      if i == -1 { SpliceMinusOne(users); } else { SpliceAt(users, i); }
      assert r == users[..j] + users[j + 1..];
      forall a, b | 0 <= a < b < |r|
        ensures r[a].id != r[b].id
      {
        var a' := if a < j then a else a + 1;
        var b' := if b < j then b else b + 1;
        assert r[a] == users[a'] && r[b] == users[b'];
      }
    }
  }

  /** After the close handler, no entry carries the closing identity. */
  lemma CloseForgetsKey(users: seq<Pov>, key: JsString)
    requires UniqueIds(users)
    ensures !HasId(CloseRemoval(users, key), key)
  {
    if HasId(users, key) {
      CloseRemovesPresent(users, key);
    } else if |users| > 0 {
      CloseAbsentDropsLast(users, key);
      var r := CloseRemoval(users, key);
      forall k | 0 <= k < |r|
        ensures r[k].id != key
      {
        assert r[k] == users[k];
      }
    }
  }

  /** The removal the close handler evidently intends: the entry with the
      closing identity if there is one, and nothing otherwise. */
  function Remove(users: seq<Pov>, key: JsString): (r: seq<Pov>)
    ensures !HasId(users, key) ==> r == users
    ensures HasId(users, key) ==> |r| == |users| - 1
  {
    var i := FindIndex(users, key);
    if i == -1 then users else users[..i] + users[i + 1..]
  }

  /** The intended removal forgets the identity and keeps every other entry,
      and agrees with the code whenever the identity is present. */
  lemma RemoveIntended(users: seq<Pov>, key: JsString)
    requires UniqueIds(users)
    ensures !HasId(Remove(users, key), key)
    ensures forall p :: p in Remove(users, key) <==> p in users && p.id != key
    ensures HasId(users, key) ==> Remove(users, key) == CloseRemoval(users, key)
  {
    if HasId(users, key) {
      CloseRemovesPresent(users, key);
    } else {
      forall p | p in users
        ensures p.id != key
      {
        var k :| 0 <= k < |users| && users[k] == p;
      }
    }
  }
}
