/**
 * The Item entity: a cost line of a Group that can be shared among the
 * group's users. Its `partitions` collection is changed in place by
 * AddUser and RemoveUser; the queries read it.
 */
module Items {
  import opened Wrappers
  import opened ItemName
  import opened Sharing

  /** The item's group, as far as the item uses it: who its members are. */
  class Group {
    var members: set<UserId>

    constructor (members: set<UserId>)
      ensures this.members == members
    {
      this.members := members;
    }

    /** Group#include_user?. */
    predicate IncludeUser(u: UserId)
      reads this
    {
      u in members
    }
  }

  class Item {
    var name: string
    /** The cost, as an exact number (see user_cost). */
    var cost: real
    /** `belongs_to :group`; an item never moves to another group. */
    const group: Group
    /** `has_many :partitions`, in the order the store created them. */
    var partitions: seq<Partition>
    /** The key the store gives the next partition it creates. */
    var nextId: nat

    /** One partition per user, and every key already handed out. */
    ghost predicate Valid()
      reads this
    {
      Unique(partitions) && IdsBelow(partitions, nextId)
    }

    constructor (name: string, cost: real, group: Group)
      ensures Valid()
      ensures this.name == name && this.cost == cost && this.group == group
      ensures partitions == [] && nextId == 0
    {
      this.name := name;
      this.cost := cost;
      this.group := group;
      partitions := [];
      nextId := 0;
    }

    /** The users this item is shared with (`item.users`). */
    function Sharers(): set<UserId>
      reads this
    {
      UsersOf(partitions)
    }

    /** include_user?: some partition of the item belongs to `u`. */
    function IncludeUser(u: UserId): (b: bool)
      reads this
      ensures b <==> exists p :: p in partitions && p.user == u
      ensures b <==> u in Sharers()
    {
      FindBy(partitions, u).Some?
    }

    /** count_users: the number of partition rows (SQL COUNT over the join). */
    function CountUsers(): (n: nat)
      reads this
      ensures n == 0 <==> Sharers() == {}
    {
      assert partitions != [] ==> partitions[0].user in Sharers();
      |partitions|
    }

    /** count_users is the number of distinct users include_user? holds for. */
    lemma CountUsersIsSharers()
      requires Valid()
      ensures CountUsers() == |Sharers()|
      ensures forall u :: IncludeUser(u) <==> u in Sharers()
    {
      UniqueCount(partitions);
    }

    /** user_cost: the share of the cost each sharer pays; 0 when nobody shares the item. */
    function UserCost(): (c: real)
      reads this
      ensures CountUsers() == 0 ==> c == 0.0
      ensures CountUsers() > 0 ==> c * CountUsers() as real == cost
    {
      var n := CountUsers();
      if n == 0 then 0.0
      else
        var share := 1.0 / n as real;
        assert share * n as real == 1.0;
        cost * share
    }

    /** get_partition: the partition of `u`, if there is one. */
    function GetPartition(u: UserId): (r: Option<Partition>)
      reads this
      ensures r.Some? <==> IncludeUser(u)
      ensures r.Some? ==> r.value in partitions && r.value.user == u
    {
      FindBy(partitions, u)
    }

    /** With one partition per user, get_partition returns the one partition of that user. */
    lemma GetPartitionOnly(p: Partition)
      requires Valid() && p in partitions
      ensures GetPartition(p.user) == Some(p)
    {
      FindByUnique(partitions, p);
    }

    /**
     * add_user: for a member of the item's group, find or create that
     * user's partition and return it; for anyone else, return None and
     * change nothing.
     */
    method AddUser(u: UserId) returns (r: Option<Partition>)
      requires Valid()
      modifies this`partitions, this`nextId
      ensures Valid()
      ensures r.Some? <==> u in group.members
      ensures partitions == if u in group.members then FindOrCreate(old(partitions), u, old(nextId)) else old(partitions)
      ensures nextId == if u in group.members && u !in old(Sharers()) then old(nextId) + 1 else old(nextId)
      ensures r.Some? ==> r == GetPartition(u)
    {
      if group.IncludeUser(u) {
        var existing := FindBy(partitions, u);
        if existing.Some? {
          r := existing;
          FindByUnique(partitions, existing.value);
        } else {
          var p := Partition(nextId, u);
          partitions := partitions + [p];
          nextId := nextId + 1;
          r := Some(p);
        }
      } else {
        r := None;
      }
    }

    /** remove_user: destroy every partition of `u`; the other partitions stay. */
    method RemoveUser(u: UserId)
      requires Valid()
      modifies this`partitions
      ensures Valid()
      ensures partitions == DestroyAll(old(partitions), u)
      ensures !IncludeUser(u)
      ensures Sharers() == old(Sharers()) - {u}
      ensures forall p :: p in old(partitions) && p.user != u ==> p in partitions
      ensures !old(IncludeUser(u)) ==> partitions == old(partitions)
    {
      DestroyAllUnique(partitions, u);
      if !IncludeUser(u) {
        DestroyAllAbsent(partitions, u);
      }
      partitions := DestroyAll(partitions, u);
    }

    /**
     * `valid?` for the name: run the before_validation callback, then
     * report the errors the name validations attach.
     */
    method ValidateName() returns (errors: set<NameError>)
      modifies this`name
      ensures name == Normalize(old(name))
      ensures errors == NameErrors(name)
      ensures errors == {} <==> 1 <= |name| <= NameMaxLength
      ensures Canonical(name)
    {
      name := Normalize(name);
      NormalizeCanonical(old(name));
      NormalizedNameValid(old(name));
      errors := NameErrors(name);
    }
  }

  // -----------------------------------------------------------------------
  // add_user as written (app/models/item.rb:56-64)

  /** How a call of add_user ends: with a returned partition, or with an exception. */
  datatype AddUserOutcome = Returned(partition: Partition) | RaisedNameError(identifier: string)

  /**
   * add_user exactly as written. Its failure branch evaluates
   * `record.errors[:users]`, but `record` (like `options`) is a name an Item
   * method does not have: Ruby raises NameError there, so the `return false`
   * after it is never reached.
   */
  function AddUserAsWritten(members: set<UserId>, ps: seq<Partition>, u: UserId, nextId: nat): (o: AddUserOutcome)
    ensures o.Returned? <==> u in members
  {
    if u in members then
      match FindBy(ps, u)
      case Some(p) => Returned(p)
      case None => Returned(Partition(nextId, u))
    else RaisedNameError("record")
  }

  /** For a member of the group, add_user as written returns the partition the corrected AddUser leaves for that user. */
  lemma AddUserAsWrittenAgrees(members: set<UserId>, ps: seq<Partition>, u: UserId, nextId: nat)
    requires u in members
    ensures AddUserAsWritten(members, ps, u, nextId) == Returned(FindBy(FindOrCreate(ps, u, nextId), u).value)
  {
    if u !in UsersOf(ps) {
      FindByAppended(ps, Partition(nextId, u));
    }
  }

  /** A user outside the group makes add_user as written raise instead of returning false. */
  lemma AddUserAsWrittenRaises()
    ensures AddUserAsWritten({1}, [], 2, 0) == RaisedNameError("record")
  {
  }

  /** A 12.00 item of a group whose members are A and B, shared with A. */
  method PizzaForA(a: UserId, b: UserId) returns (item: Item)
    ensures fresh(item) && item.Valid()
    ensures item.cost == 12.0 && item.group.members == {a, b}
    ensures item.partitions == [Partition(0, a)] && item.nextId == 1
  {
    var group := new Group({a, b});
    item := new Item("Pizza", 12.0, group);
    assert FindOrCreate([], a, 0) == [Partition(0, a)] by {
      assert [] + [Partition(0, a)] == [Partition(0, a)];
    }
    var r := item.AddUser(a);
  }

  /** The same item, shared with B as well. */
  method SharedPizza(a: UserId, b: UserId) returns (item: Item)
    requires a != b
    ensures fresh(item) && item.Valid()
    ensures item.cost == 12.0 && item.group.members == {a, b}
    ensures item.partitions == [Partition(0, a), Partition(1, b)]
  {
    item := PizzaForA(a, b);
    assert UsersOf([Partition(0, a)]) == {a} by {
      UsersOfCons(Partition(0, a), []);
      assert [Partition(0, a)] + [] == [Partition(0, a)];
    }
    assert FindOrCreate([Partition(0, a)], b, 1) == [Partition(0, a), Partition(1, b)] by {
      assert FindBy([Partition(0, a)], b) == None;
    }
    var r := item.AddUser(b);
  }

  /**
   * A and B share a 12.00 pizza. Sharing it again with A returns A's
   * existing partition; sharing it with C, who is not in the group, is
   * refused. Each of the two sharers still pays 6.00.
   */
  method PizzaScenario(a: UserId, b: UserId, c: UserId) returns (again: Option<Partition>, outsider: Option<Partition>, share: real)
    requires a != b && c != a && c != b
    ensures again == Some(Partition(0, a))
    ensures outsider == None
    ensures share == 6.0
  {
    var item := SharedPizza(a, b);
    ghost var ps := item.partitions;
    assert FindBy(ps, a) == Some(Partition(0, a));
    assert FindOrCreate(ps, a, item.nextId) == ps;
    again := item.AddUser(a);
    assert item.partitions == ps;
    assert c !in item.group.members;
    outsider := item.AddUser(c);
    assert item.CountUsers() == 2;
    share := item.UserCost();
  }

  /**
   * Unsharing the pizza with A leaves B as the only sharer; unsharing it
   * with A a second time changes nothing. B then pays the whole 12.00.
   */
  method UnshareScenario(a: UserId, b: UserId) returns (sharers: set<UserId>, share: real)
    requires a != b
    ensures sharers == {b}
    ensures share == 12.0
  {
    var item := SharedPizza(a, b);
    assert DestroyAll([Partition(0, a), Partition(1, b)], a) == [Partition(1, b)] by {
      assert [Partition(0, a), Partition(1, b)][1..] == [Partition(1, b)];
      assert [Partition(1, b)][1..] == [];
      assert DestroyAll([Partition(1, b)], a) == [Partition(1, b)] + DestroyAll([], a);
    }
    item.RemoveUser(a);
    item.RemoveUser(a);
    assert item.partitions == [Partition(1, b)];
    sharers := item.Sharers();
    share := item.UserCost();
  }

  /** Saving an item named "  pizza" stores the name "Pizza", which passes validation. */
  method PizzaName(group: Group) returns (name: string, errors: set<NameError>)
    ensures name == "Pizza" && errors == {}
  {
    var item := new Item("  pizza", 12.0, group);
    errors := item.ValidateName();
    NormalizePizza("  pizza");
    name := item.name;
  }
}
