/**
 * The partitions of one Item as an in-memory collection. A Partition is the
 * join record "this item is shared with this user"; `id` is the primary key
 * the store assigned when the record was created.
 *
 * These functions are what the ActiveRecord association calls used by the
 * Item class compute: `find_by(user:)`, `find_or_create_by(user:)`,
 * `destroy_all(user:)`, and the set of users reached through the partitions.
 */
module Sharing {
  import opened Wrappers

  type UserId = int

  datatype Partition = Partition(id: nat, user: UserId)

  /** The users the item is shared with (`item.users`). */
  function UsersOf(ps: seq<Partition>): set<UserId> {
    set p | p in ps :: p.user
  }

  /** No user has two partitions on the item. */
  predicate Unique(ps: seq<Partition>) {
    forall i, j :: 0 <= i < j < |ps| ==> ps[i].user != ps[j].user
  }

  /** Every partition's key is below the next key the store will hand out. */
  predicate IdsBelow(ps: seq<Partition>, nextId: nat) {
    forall p :: p in ps ==> p.id < nextId
  }

  /** `find_by(user: u)`: a partition of `u`, or nothing. */
  function FindBy(ps: seq<Partition>, u: UserId): (r: Option<Partition>)
    ensures r.Some? <==> u in UsersOf(ps)
    ensures r.Some? ==> r.value in ps && r.value.user == u
  {
    if ps == [] then None
    else if ps[0].user == u then Some(ps[0])
    else
      assert forall p :: p in ps ==> p == ps[0] || p in ps[1..];
      FindBy(ps[1..], u)
  }

  /**
   * The collection after `find_or_create_by(user: u)`: unchanged when `u`
   * already has a partition, otherwise one new partition with key `id`.
   */
  function FindOrCreate(ps: seq<Partition>, u: UserId, id: nat): (r: seq<Partition>)
    ensures forall p :: p in r <==> p in ps || (u !in UsersOf(ps) && p == Partition(id, u))
    ensures UsersOf(r) == UsersOf(ps) + {u}
    ensures Unique(ps) ==> Unique(r)
  {
    match FindBy(ps, u)
    case Some(_) => ps
    case None => ps + [Partition(id, u)]
  }

  /** The collection after `destroy_all(user: u)`: every partition of `u` is gone, the others stay in order. */
  function DestroyAll(ps: seq<Partition>, u: UserId): (r: seq<Partition>)
    ensures forall p :: p in r <==> p in ps && p.user != u
    ensures UsersOf(r) == UsersOf(ps) - {u}
  {
    if ps == [] then []
    else if ps[0].user == u then DestroyAll(ps[1..], u)
    else [ps[0]] + DestroyAll(ps[1..], u)
  }

  lemma UsersOfCons(p: Partition, ps: seq<Partition>)
    ensures UsersOf([p] + ps) == {p.user} + UsersOf(ps)
  {
    assert forall q :: q in [p] + ps <==> q == p || q in ps;
  }

  /** With one partition per user, the number of partitions is the number of users sharing the item. */
  lemma {:induction false} UniqueCount(ps: seq<Partition>)
    requires Unique(ps)
    ensures |UsersOf(ps)| == |ps|
  {
    if ps != [] {
      var rest := ps[1..];
      assert ps == [ps[0]] + rest;
      UsersOfCons(ps[0], rest);
      assert Unique(rest);
      UniqueCount(rest);
      assert ps[0].user !in UsersOf(rest);
    }
  }

  /** With one partition per user, `find_by` finds the only partition of that user. */
  lemma {:induction false} FindByUnique(ps: seq<Partition>, p: Partition)
    requires Unique(ps) && p in ps
    ensures FindBy(ps, p.user) == Some(p)
  {
    if ps[0] != p {
      var k :| 0 <= k < |ps| && ps[k] == p;
      assert k > 0;
      assert ps[0].user != p.user;
      assert ps[1..][k - 1] == p;
      FindByUnique(ps[1..], p);
    }
  }

  /** A second `find_or_create_by` for the same user changes nothing, whatever key it would have used. */
  lemma FindOrCreateIdempotent(ps: seq<Partition>, u: UserId, id: nat, id': nat)
    ensures FindOrCreate(FindOrCreate(ps, u, id), u, id') == FindOrCreate(ps, u, id)
  {
  }

  /** Sharing with a user adds one to the number of sharers if they were not sharing the item yet, and nothing otherwise. */
  lemma FindOrCreateCount(ps: seq<Partition>, u: UserId, id: nat)
    requires Unique(ps)
    ensures |FindOrCreate(ps, u, id)| == if u in UsersOf(ps) then |ps| else |ps| + 1
    ensures |FindOrCreate(ps, u, id)| == |UsersOf(FindOrCreate(ps, u, id))|
  {
    UniqueCount(ps);
    UniqueCount(FindOrCreate(ps, u, id));
  }

  /** `find_by` on a collection with a new last partition of a user who had none finds that partition. */
  lemma {:induction false} FindByAppended(ps: seq<Partition>, p: Partition)
    requires p.user !in UsersOf(ps)
    ensures FindBy(ps + [p], p.user) == Some(p)
  {
    if ps == [] {
      assert ps + [p] == [p];
    } else {
      assert ps[0] in ps;
      assert (ps + [p])[0] == ps[0];
      assert (ps + [p])[1..] == ps[1..] + [p];
      assert UsersOf(ps[1..]) <= UsersOf(ps);
      FindByAppended(ps[1..], p);
    }
  }

  /** `destroy_all` for a user without partitions leaves the collection as it was. */
  lemma {:induction false} DestroyAllAbsent(ps: seq<Partition>, u: UserId)
    requires u !in UsersOf(ps)
    ensures DestroyAll(ps, u) == ps
  {
    if ps != [] {
      assert ps[0] in ps;
      UsersOfCons(ps[0], ps[1..]);
      assert ps == [ps[0]] + ps[1..];
      DestroyAllAbsent(ps[1..], u);
    }
  }

  /** The first partition's user has no other partition, and the rest still has one partition per user. */
  lemma UniqueTail(ps: seq<Partition>)
    requires Unique(ps) && ps != []
    ensures ps[0].user !in UsersOf(ps[1..]) && Unique(ps[1..])
  {
    forall p | p in ps[1..] ensures p.user != ps[0].user {
      var k :| 0 <= k < |ps[1..]| && ps[1..][k] == p;
      assert ps[k + 1] == p;
    }
  }

  /** Putting a partition of a new user in front keeps one partition per user. */
  lemma UniqueCons(p: Partition, r: seq<Partition>)
    requires Unique(r) && p.user !in UsersOf(r)
    ensures Unique([p] + r)
  {
    var r' := [p] + r;
    forall i, j | 0 <= i < j < |r'| ensures r'[i].user != r'[j].user {
      assert r'[j] == r[j - 1] && r[j - 1] in r;
      if i > 0 {
        assert r'[i] == r[i - 1];
      }
    }
  }

  /** `destroy_all` keeps one partition per user. */
  lemma {:induction false} DestroyAllUnique(ps: seq<Partition>, u: UserId)
    requires Unique(ps)
    ensures Unique(DestroyAll(ps, u))
  {
    if ps != [] {
      UniqueTail(ps);
      DestroyAllUnique(ps[1..], u);
      if ps[0].user != u {
        UniqueCons(ps[0], DestroyAll(ps[1..], u));
      }
    }
  }

  /** Removing a sharer from a collection with one partition per user removes exactly one partition. */
  lemma DestroyAllCount(ps: seq<Partition>, u: UserId)
    requires Unique(ps)
    ensures |DestroyAll(ps, u)| == if u in UsersOf(ps) then |ps| - 1 else |ps|
  {
    DestroyAllUnique(ps, u);
    UniqueCount(ps);
    UniqueCount(DestroyAll(ps, u));
  }
}
