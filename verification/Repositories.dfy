/** The in-memory order and user repositories. Times are nanoseconds, amounts integers. */
module OrderRepository {
  import opened Histories
  import opened Paging
  import opened Sets
  import opened Wrappers

  datatype Error = NotFound | InvalidId

  datatype Order = Order(
    id: int, userId: int, orderNo: string, amount: real, status: string, description: string,
    createdAt: int, updatedAt: int)

  const PENDING := "pending"

  datatype ListRequest = ListRequest(page: int, pageSize: int, status: string, userId: int)

  predicate Matches(o: Order, req: ListRequest) {
    && (req.userId > 0 ==> o.userId == req.userId)
    && (req.status != "" ==> o.status == req.status)
  }

  /** `listing` enumerates the matching orders, each once, in some order. */
  ghost predicate Enumerates(listing: seq<Order>, orders: map<int, Order>, req: ListRequest) {
    && (forall o :: o in listing <==> o.id in orders && orders[o.id] == o && Matches(o, req))
    && (forall i, j | 0 <= i < j < |listing| :: listing[i].id != listing[j].id)
  }

  /** What a listing holds: the orders of the user asked for, if any, in the status asked for, if any. */
  lemma ListsExactly(listing: seq<Order>, orders: map<int, Order>, req: ListRequest)
    requires Enumerates(listing, orders, req)
    ensures forall o :: o in listing <==>
              && o.id in orders && orders[o.id] == o
              && (req.userId <= 0 || o.userId == req.userId)
              && (req.status == "" || o.status == req.status)
  {
  }

  /** Empty update fields leave the old value. */
  function Merged(o: Order, change: Order, now: int): Order {
    o.(amount := if change.amount > 0.0 then change.amount else o.amount,
       status := if change.status != "" then change.status else o.status,
       description := if change.description != "" then change.description else o.description,
       updatedAt := now)
  }

  // ---- Whole runs --------------------------------------------------------------------

  datatype Store = Store(orders: map<int, Order>, nextId: int)

  datatype Op =
    | Create(order: Order, orderNo: string, now: int)
    | Update(change: Order, now: int)
    | Delete(id: int)

  /** The order as a Create stores it. */
  function Created(op: Op, id: int): Order
    requires op.Create?
  {
    op.order.(id := id, orderNo := op.orderNo, status := PENDING, createdAt := op.now, updatedAt := op.now)
  }

  function Step(s: Store, op: Op): Store {
    match op
    case Create(_, _, _) => Store(s.orders[s.nextId := Created(op, s.nextId)], s.nextId + 1)
    case Update(change, now) =>
      if change.id in s.orders then s.(orders := s.orders[change.id := Merged(s.orders[change.id], change, now)]) else s
    case Delete(id) => s.(orders := s.orders - {id})
  }

  const EMPTY := Store(map[], 1)

  function Run(ops: seq<Op>): Store {
    if ops == [] then EMPTY else Step(Run(ops[..|ops| - 1]), ops[|ops| - 1])
  }

  /** What GetByID answers. */
  function Lookup(s: Store, id: int): Result<Order, Error> {
    if id <= 0 then Err(InvalidId)
    else if id in s.orders then Ok(s.orders[id])
    else Err(NotFound)
  }

  function Creates(ops: seq<Op>): nat {
    if ops == [] then 0 else Creates(ops[..|ops| - 1]) + if ops[|ops| - 1].Create? then 1 else 0
  }

  /** Ids are given out as 1, 2, .., and an id not given out yet names nothing. */
  lemma {:induction false} IdsCount(ops: seq<Op>)
    ensures Run(ops).nextId == Creates(ops) + 1
    ensures forall id | id in Run(ops).orders :: 1 <= id <= Creates(ops)
  {
    if ops != [] {
      IdsCount(ops[..|ops| - 1]);
    }
  }

  lemma {:induction false} CreatesGrow(before: seq<Op>, create: Op, later: seq<Op>)
    requires create.Create?
    ensures Creates(before + [create] + later) > Creates(before)
    decreases |later|
  {
    var all := before + [create] + later;
    if later == [] {
      assert all[..|all| - 1] == before && all[|all| - 1] == create;
    } else {
      assert all[..|all| - 1] == before + [create] + later[..|later| - 1];
      CreatesGrow(before, create, later[..|later| - 1]);
    }
  }

  // What the updates of order `id` say of each field; an empty field says nothing.

  function AmountSaid(id: int): Op -> Option<real> {
    (op: Op) =>
      if op.Update? && op.change.id == id && op.change.amount > 0.0 then Some(op.change.amount) else None
  }

  function StatusSaid(id: int): Op -> Option<string> {
    (op: Op) =>
      if op.Update? && op.change.id == id && op.change.status != "" then Some(op.change.status) else None
  }

  function DescriptionSaid(id: int): Op -> Option<string> {
    (op: Op) =>
      if op.Update? && op.change.id == id && op.change.description != "" then Some(op.change.description) else None
  }

  function UpdateTime(id: int): Op -> Option<int> {
    (op: Op) =>
      if op.Update? && op.change.id == id then Some(op.now) else None
  }

  /** An order as its Create and the later operations wrote it, field by field. */
  ghost predicate Written(o: Order, id: int, create: Op, later: seq<Op>)
    requires create.Create?
  {
    && o.id == id && o.userId == create.order.userId && o.orderNo == create.orderNo && o.createdAt == create.now
    && o.amount == LastSaid(later, AmountSaid(id), create.order.amount)
    && o.status == LastSaid(later, StatusSaid(id), "pending")
    && o.description == LastSaid(later, DescriptionSaid(id), create.order.description)
    && o.updatedAt == LastSaid(later, UpdateTime(id), create.now)
  }

  lemma StepWritten(s: Store, op: Op, id: int, create: Op, later: seq<Op>)
    requires create.Create? && 1 <= id < s.nextId
    requires id in s.orders ==> Written(s.orders[id], id, create, later)
    ensures id in Step(s, op).orders <==> id in s.orders && op != Delete(id)
    ensures id in Step(s, op).orders ==> Written(Step(s, op).orders[id], id, create, later + [op])
  {
    var all := later + [op];
    assert all[..|all| - 1] == later && all[|all| - 1] == op;
  }

  /**
   What GetByID reads back, after any run: the user, number and creation time that its own
   Create stored; the last positive amount and the last non-empty status and description of the
   updates since, or what Create stored, "pending" for the status; and the time of the last
   update. Once it has been deleted it is not found, for good.
   */
  lemma {:induction false} ReadBack(before: seq<Op>, create: Op, later: seq<Op>)
    requires create.Create?
    ensures var id := Creates(before) + 1;
            var r := Lookup(Run(before + [create] + later), id);
            if Delete(id) in later then r == Err(NotFound) else r.Ok? && Written(r.value, id, create, later)
    decreases |later|
  {
    var id, all := Creates(before) + 1, before + [create] + later;
    if later == [] {
      assert all[..|all| - 1] == before && all[|all| - 1] == create;
      IdsCount(before);
    } else {
      var some, last := later[..|later| - 1], later[|later| - 1];
      assert later == some + [last];
      assert all[..|all| - 1] == before + [create] + some && all[|all| - 1] == last;
      ReadBack(before, create, some);
      IdsCount(before + [create] + some);
      CreatesGrow(before, create, some);
      StepWritten(Run(before + [create] + some), last, id, create, some);
    }
  }

  /** An id never given out reads as invalid if it is not positive, and as not found otherwise. */
  lemma NeverIssued(ops: seq<Op>, id: int)
    requires id <= 0 || id > Creates(ops)
    ensures Lookup(Run(ops), id) == Err(if id <= 0 then InvalidId else NotFound)
  {
    IdsCount(ops);
  }

  // ---- The repository ----------------------------------------------------------------

  class MemoryOrderRepository {
    var orders: map<int, Order>
    var nextId: int
    ghost var issued: seq<int>  // every id ever given out, in order

    ghost function State(): Store
      reads this
    {
      Store(orders, nextId)
    }

    /** Ids are given out once, upward, and every stored order carries its own. */
    ghost predicate Valid()
      reads this
    {
      && nextId >= 1
      && (forall i | 0 <= i < |issued| :: 1 <= issued[i] < nextId)
      && (forall i, j | 0 <= i < j < |issued| :: issued[i] < issued[j])
      && (forall id | id in orders :: id in issued && orders[id].id == id)
    }

    constructor ()
      ensures Valid() && State() == EMPTY && issued == []
    {
      orders := map[];
      nextId := 1;
      issued := [];
    }

    method Create(order: Order, orderNo: string, now: int) returns (created: Order)
      requires Valid()
      modifies this
      ensures Valid()
      ensures created.id !in old(issued) && issued == old(issued) + [created.id]
      ensures forall id | id in old(issued) :: id < created.id
      ensures created == Created(Op.Create(order, orderNo, now), old(nextId))
      ensures State() == Step(old(State()), Op.Create(order, orderNo, now))
    {
      created := order.(id := nextId, orderNo := orderNo, status := PENDING, createdAt := now, updatedAt := now);
      orders := orders[created.id := created];
      issued := issued + [nextId];
      nextId := nextId + 1;
    }

    method GetById(id: int) returns (r: Result<Order, Error>)
      requires Valid()
      ensures r == Lookup(State(), id)
    {
      if id <= 0 {
        return Err(InvalidId);
      }
      if id !in orders {
        return Err(NotFound);
      }
      return Ok(orders[id]);
    }

    /** `r` is the merged order, or the error with which nothing changes. */
    method Update(change: Order, now: int) returns (r: Result<Order, Error>)
      requires Valid()
      modifies this`orders
      ensures Valid()
      ensures State() == Step(old(State()), Op.Update(change, now))
      ensures r == Lookup(State(), change.id)
      ensures r.Err? <==> State() == old(State()) && change.id !in orders
    {
      if change.id <= 0 {
        return Err(InvalidId);
      }
      if change.id !in orders {
        return Err(NotFound);
      }
      var merged := Merged(orders[change.id], change, now);
      orders := orders[change.id := merged];
      return Ok(merged);
    }

    /** A deleted id stays issued, so it is never given out again. */
    method Delete(id: int) returns (r: Result<(), Error>)
      requires Valid()
      modifies this`orders
      ensures Valid()
      ensures State() == Step(old(State()), Op.Delete(id))
      ensures r.Err? ==> State() == old(State()) && r.error == Lookup(old(State()), id).error
      ensures r.Err? <==> Lookup(old(State()), id).Err?
    {
      if id <= 0 {
        assert id !in orders;
        return Err(InvalidId);
      }
      if id !in orders {
        return Err(NotFound);
      }
      orders := orders - {id};
      return Ok(());
    }

    /** The matching orders, in the order in which this call ranged over the map. */
    method Filter(req: ListRequest) returns (filtered: seq<Order>)
      requires Valid()
      ensures Enumerates(filtered, orders, req)
    {
      filtered := [];
      var todo := orders.Keys;
      while todo != {}
        invariant todo <= orders.Keys
        invariant forall o :: o in filtered <==>
                    o.id in orders && o.id !in todo && orders[o.id] == o && Matches(o, req)
        invariant forall i, j | 0 <= i < j < |filtered| :: filtered[i].id != filtered[j].id
        decreases todo
      {
        SomeMember(todo);
        var id :| id in todo;
        todo := todo - {id};
        var order := orders[id];
        assert order.id == id;
        if Matches(order, req) {
          filtered := filtered + [order];
        }
      }
    }

    /** The page is cut out of some enumeration of the matching orders. */
    method List(req: ListRequest) returns (r: Slice<Order>, total: int)
      requires Valid()
      ensures exists listing :: Enumerates(listing, orders, req)
                                && total == Wrap32(|listing|) && r == Cut(listing, req.page, req.pageSize)
    {
      var filtered := Filter(req);
      r, total := CutPage(filtered, req.page, req.pageSize);
    }
  }
}

module UserRepository {
  import opened Histories
  import opened Paging
  import opened Sets
  import opened Wrappers

  datatype Error = NotFound | AlreadyExists | InvalidId

  datatype User = User(
    id: int, username: string, email: string, phone: string, age: int, address: string,
    createdAt: int, updatedAt: int)

  ghost predicate UniqueNames(users: map<int, User>) {
    forall a, b | a in users && b in users && users[a].username == users[b].username :: a == b
  }

  /** Empty update fields leave the old value. */
  function Merged(u: User, change: User, now: int): User {
    u.(username := if change.username != "" then change.username else u.username,
       email := if change.email != "" then change.email else u.email,
       phone := if change.phone != "" then change.phone else u.phone,
       age := if change.age > 0 then change.age else u.age,
       address := if change.address != "" then change.address else u.address,
       updatedAt := now)
  }

  /**
   Create checks for taken names and Update does not: names stay unique if and only if the
   update leaves the name alone or no other user has the new one.
   */
  lemma RenameKeepsUnique(users: map<int, User>, change: User, now: int)
    requires UniqueNames(users) && change.id in users
    ensures UniqueNames(users[change.id := Merged(users[change.id], change, now)])
            <==> || change.username == ""
                 || forall id | id in users && id != change.id :: users[id].username != change.username
  {
    var after := users[change.id := Merged(users[change.id], change, now)];
    if UniqueNames(after) && change.username != "" {
      forall id | id in users && id != change.id ensures users[id].username != change.username {
        assert id in after && change.id in after;
      }
    }
  }

  // ---- Whole runs --------------------------------------------------------------------

  datatype Store = Store(users: map<int, User>, nextId: int)

  datatype Op =
    | Create(user: User, now: int)
    | Update(change: User, now: int)
    | Delete(id: int)

  ghost predicate Taken(users: map<int, User>, username: string) {
    exists id :: id in users && users[id].username == username
  }

  ghost function Step(s: Store, op: Op): Store {
    match op
    case Create(user, now) =>
      if Taken(s.users, user.username) then s
      else Store(s.users[s.nextId := user.(id := s.nextId, createdAt := now, updatedAt := now)], s.nextId + 1)
    case Update(change, now) =>
      if change.id in s.users then s.(users := s.users[change.id := Merged(s.users[change.id], change, now)]) else s
    case Delete(id) => s.(users := s.users - {id})
  }

  const EMPTY := Store(map[], 1)

  ghost function Run(ops: seq<Op>): Store {
    if ops == [] then EMPTY else Step(Run(ops[..|ops| - 1]), ops[|ops| - 1])
  }

  /** What GetByID answers. */
  function Lookup(s: Store, id: int): Result<User, Error> {
    if id <= 0 then Err(InvalidId)
    else if id in s.users then Ok(s.users[id])
    else Err(NotFound)
  }

  /** How many Creates were granted: ids are given out as 1, 2, .. */
  ghost function Granted(ops: seq<Op>): nat {
    if ops == [] then 0
    else
      var before, last := ops[..|ops| - 1], ops[|ops| - 1];
      Granted(before) + if last.Create? && !Taken(Run(before).users, last.user.username) then 1 else 0
  }

  lemma {:induction false} IdsCount(ops: seq<Op>)
    ensures Run(ops).nextId == Granted(ops) + 1
    ensures forall id | id in Run(ops).users :: 1 <= id <= Granted(ops)
  {
    if ops != [] {
      IdsCount(ops[..|ops| - 1]);
    }
  }

  lemma {:induction false} GrantedGrow(before: seq<Op>, create: Op, later: seq<Op>)
    requires create.Create? && !Taken(Run(before).users, create.user.username)
    ensures Granted(before + [create] + later) > Granted(before)
    decreases |later|
  {
    var all := before + [create] + later;
    if later == [] {
      assert all[..|all| - 1] == before && all[|all| - 1] == create;
    } else {
      assert all[..|all| - 1] == before + [create] + later[..|later| - 1];
      GrantedGrow(before, create, later[..|later| - 1]);
    }
  }

  // What the updates of user `id` say of each field; an empty field says nothing.

  function NameSaid(id: int): Op -> Option<string> {
    (op: Op) =>
      if op.Update? && op.change.id == id && op.change.username != "" then Some(op.change.username) else None
  }

  function EmailSaid(id: int): Op -> Option<string> {
    (op: Op) =>
      if op.Update? && op.change.id == id && op.change.email != "" then Some(op.change.email) else None
  }

  function PhoneSaid(id: int): Op -> Option<string> {
    (op: Op) =>
      if op.Update? && op.change.id == id && op.change.phone != "" then Some(op.change.phone) else None
  }

  function AgeSaid(id: int): Op -> Option<int> {
    (op: Op) =>
      if op.Update? && op.change.id == id && op.change.age > 0 then Some(op.change.age) else None
  }

  function AddressSaid(id: int): Op -> Option<string> {
    (op: Op) =>
      if op.Update? && op.change.id == id && op.change.address != "" then Some(op.change.address) else None
  }

  function UpdateTime(id: int): Op -> Option<int> {
    (op: Op) =>
      if op.Update? && op.change.id == id then Some(op.now) else None
  }

  /** A user as its Create and the later operations wrote it, field by field. */
  ghost predicate Written(u: User, id: int, create: Op, later: seq<Op>)
    requires create.Create?
  {
    && u.id == id && u.createdAt == create.now
    && u.username == LastSaid(later, NameSaid(id), create.user.username)
    && u.email == LastSaid(later, EmailSaid(id), create.user.email)
    && u.phone == LastSaid(later, PhoneSaid(id), create.user.phone)
    && u.age == LastSaid(later, AgeSaid(id), create.user.age)
    && u.address == LastSaid(later, AddressSaid(id), create.user.address)
    && u.updatedAt == LastSaid(later, UpdateTime(id), create.now)
  }

  lemma StepWritten(s: Store, op: Op, id: int, create: Op, later: seq<Op>)
    requires create.Create? && 1 <= id < s.nextId
    requires id in s.users ==> Written(s.users[id], id, create, later)
    ensures id in Step(s, op).users <==> id in s.users && op != Delete(id)
    ensures id in Step(s, op).users ==> Written(Step(s, op).users[id], id, create, later + [op])
  {
    var all := later + [op];
    assert all[..|all| - 1] == later && all[|all| - 1] == op;
  }

  lemma CreateWritten(s: Store, create: Op)
    requires create.Create? && !Taken(s.users, create.user.username)
    ensures var s' := Step(s, create);
            s.nextId in s'.users && Written(s'.users[s.nextId], s.nextId, create, [])
  {
  }

  /**
   What GetByID reads back, after any run, of a user whose Create was granted: each field as the
   last update that did not leave it empty wrote it, or as Create did; once deleted, not found for good.
   */
  lemma {:induction false} ReadBack(before: seq<Op>, create: Op, later: seq<Op>)
    requires create.Create? && !Taken(Run(before).users, create.user.username)
    ensures var id := Granted(before) + 1;
            var r := Lookup(Run(before + [create] + later), id);
            if Delete(id) in later then r == Err(NotFound) else r.Ok? && Written(r.value, id, create, later)
    decreases |later|
  {
    var id, all := Granted(before) + 1, before + [create] + later;
    if later == [] {
      assert all[..|all| - 1] == before && all[|all| - 1] == create;
      IdsCount(before);
      CreateWritten(Run(before), create);
    } else {
      var some, last := later[..|later| - 1], later[|later| - 1];
      var so := Run(before + [create] + some);
      assert later == some + [last];
      assert all[..|all| - 1] == before + [create] + some && all[|all| - 1] == last;
      ReadBack(before, create, some);
      IdsCount(before + [create] + some);
      GrantedGrow(before, create, some);
      StepWritten(so, last, id, create, some);
    }
  }

  /** Over every run in which no update renames anybody, names are unique. */
  lemma {:induction false} UniqueUnlessRenamed(ops: seq<Op>)
    requires forall i | 0 <= i < |ops| && ops[i].Update? :: ops[i].change.username == ""
    ensures UniqueNames(Run(ops).users)
  {
    if ops != [] {
      var before, op := ops[..|ops| - 1], ops[|ops| - 1];
      UniqueUnlessRenamed(before);
      IdsCount(before);
      if op.Update? && op.change.id in Run(before).users {
        RenameKeepsUnique(Run(before).users, op.change, op.now);
      }
    }
  }

  // ---- The keyword test of List ------------------------------------------------------

  /** A string in lower case; `lower` is the case table. */
  function Lowered(s: string, lower: char -> char): string {
    seq(|s|, i requires 0 <= i < |s| => lower(s[i]))
  }

  predicate OccursAt(s: string, word: string, i: int) {
    0 <= i <= |s| - |word| && s[i..i + |word|] == word
  }

  predicate Contains(s: string, word: string) {
    exists i | 0 <= i <= |s| :: OccursAt(s, word, i)
  }

  /** The keyword occurs in the name or the e-mail address, in whatever case; no keyword passes everyone. */
  predicate Matches(u: User, keyword: string, lower: char -> char) {
    var word := Lowered(keyword, lower);
    keyword == "" || Contains(Lowered(u.username, lower), word) || Contains(Lowered(u.email, lower), word)
  }

  /** `listing` enumerates the matching users, each once, in some order. */
  ghost predicate Enumerates(listing: seq<User>, users: map<int, User>, keyword: string, lower: char -> char) {
    && (forall u :: u in listing <==> u.id in users && users[u.id] == u && Matches(u, keyword, lower))
    && (forall i, j | 0 <= i < j < |listing| :: listing[i].id != listing[j].id)
  }

  /** The word reads somewhere in the text, letter by letter in lower case. */
  ghost predicate Reads(text: string, word: string, lower: char -> char) {
    exists i :: ReadsAt(text, word, lower, i)
  }

  predicate ReadsAt(text: string, word: string, lower: char -> char, i: int) {
    && 0 <= i && i + |word| <= |text|
    && forall k | 0 <= k < |word| :: lower(text[i + k]) == lower(word[k])
  }

  lemma OccursExactly(text: string, word: string, lower: char -> char, i: int)
    ensures OccursAt(Lowered(text, lower), Lowered(word, lower), i) <==> ReadsAt(text, word, lower, i)
  {
    var t, w := Lowered(text, lower), Lowered(word, lower);
    if 0 <= i <= |t| - |w| {
      forall k | 0 <= k < |w| ensures t[i..i + |w|][k] == lower(text[i + k]) && w[k] == lower(word[k]) {
      }
    }
  }

  lemma ContainsExactly(text: string, word: string, lower: char -> char)
    ensures Contains(Lowered(text, lower), Lowered(word, lower)) <==> Reads(text, word, lower)
  {
    var t, w := Lowered(text, lower), Lowered(word, lower);
    if i :| 0 <= i <= |t| && OccursAt(t, w, i) {
      OccursExactly(text, word, lower, i);
    }
    if i :| ReadsAt(text, word, lower, i) {
      OccursExactly(text, word, lower, i);
    }
  }

  /** What a listing holds: the users in whose name or e-mail address the keyword reads, or all for an empty one. */
  lemma ListsExactly(listing: seq<User>, users: map<int, User>, keyword: string, lower: char -> char)
    requires Enumerates(listing, users, keyword, lower)
    ensures forall u :: u in listing <==>
              && u.id in users && users[u.id] == u
              && (keyword == "" || Reads(u.username, keyword, lower) || Reads(u.email, keyword, lower))
  {
    forall u: User | u.id in users && users[u.id] == u
      ensures Matches(u, keyword, lower)
              <==> keyword == "" || Reads(u.username, keyword, lower) || Reads(u.email, keyword, lower)
    {
      ContainsExactly(u.username, keyword, lower);
      ContainsExactly(u.email, keyword, lower);
    }
  }

  class MemoryUserRepository {
    var users: map<int, User>
    var nextId: int
    ghost var issued: seq<int>  // every id ever given out, in order

    ghost function State(): Store
      reads this
    {
      Store(users, nextId)
    }

    ghost predicate Valid()
      reads this
    {
      && nextId >= 1
      && (forall i | 0 <= i < |issued| :: 1 <= issued[i] < nextId)
      && (forall i, j | 0 <= i < j < |issued| :: issued[i] < issued[j])
      && (forall id | id in users :: id in issued && users[id].id == id)
    }

    constructor ()
      ensures Valid() && State() == EMPTY && issued == []
    {
      users := map[];
      nextId := 1;
      issued := [];
    }

    /** Names already taken are refused; otherwise a new id is given out and names stay unique. */
    method Create(user: User, now: int) returns (r: Result<User, Error>)
      requires Valid()
      modifies this
      ensures Valid()
      ensures State() == Step(old(State()), Op.Create(user, now))
      ensures r == Err(AlreadyExists) <==> exists id :: id in old(users) && old(users)[id].username == user.username
      ensures r.Err? ==> r == Err(AlreadyExists) && State() == old(State()) && issued == old(issued)
      ensures r.Ok? ==>
                && (forall id | id in old(issued) :: id < r.value.id) && issued == old(issued) + [r.value.id]
                && r.value == user.(id := r.value.id, createdAt := now, updatedAt := now)
                && users == old(users)[r.value.id := r.value]
      ensures UniqueNames(old(users)) ==> UniqueNames(users)
    {
      var todo := users.Keys;
      while todo != {}
        invariant todo <= users.Keys
        invariant users == old(users) && nextId == old(nextId) && issued == old(issued)
        invariant forall id | id in users && id !in todo :: users[id].username != user.username
        decreases todo
      {
        SomeMember(todo);
        var id :| id in todo;
        todo := todo - {id};
        if users[id].username == user.username {
          return Err(AlreadyExists);
        }
      }
      var created := user.(id := nextId, createdAt := now, updatedAt := now);
      users := users[nextId := created];
      issued := issued + [nextId];
      nextId := nextId + 1;
      return Ok(created);
    }

    method GetById(id: int) returns (r: Result<User, Error>)
      requires Valid()
      ensures r == Lookup(State(), id)
    {
      if id <= 0 {
        return Err(InvalidId);
      }
      if id !in users {
        return Err(NotFound);
      }
      return Ok(users[id]);
    }

    /** The new name is not checked against the others': `RenameKeepsUnique` says when it matters. */
    method Update(change: User, now: int) returns (r: Result<User, Error>)
      requires Valid()
      modifies this`users
      ensures Valid()
      ensures State() == Step(old(State()), Op.Update(change, now))
      ensures r == Lookup(State(), change.id)
      ensures r.Err? <==> change.id !in old(users)
    {
      if change.id <= 0 {
        assert change.id !in users;
        return Err(InvalidId);
      }
      if change.id !in users {
        return Err(NotFound);
      }
      var merged := Merged(users[change.id], change, now);
      users := users[change.id := merged];
      return Ok(merged);
    }

    method Delete(id: int) returns (r: Result<(), Error>)
      requires Valid()
      modifies this`users
      ensures Valid()
      ensures r == if id <= 0 then Err(InvalidId) else if id in old(users) then Ok(()) else Err(NotFound)
      ensures State() == Step(old(State()), Op.Delete(id))
      ensures UniqueNames(old(users)) ==> UniqueNames(users)
    {
      if id <= 0 {
        assert id !in users;
        return Err(InvalidId);
      }
      if id !in users {
        return Err(NotFound);
      }
      users := users - {id};
      return Ok(());
    }

    /** The users that pass the keyword test, in the order in which this call ranged over the map. */
    method Filter(keyword: string, lower: char -> char) returns (filtered: seq<User>)
      requires Valid()
      ensures Enumerates(filtered, users, keyword, lower)
    {
      filtered := [];
      var todo := users.Keys;
      while todo != {}
        invariant todo <= users.Keys
        invariant forall u :: u in filtered <==>
                    u.id in users && u.id !in todo && users[u.id] == u && Matches(u, keyword, lower)
        invariant forall i, j | 0 <= i < j < |filtered| :: filtered[i].id != filtered[j].id
        decreases todo
      {
        SomeMember(todo);
        var id :| id in todo;
        todo := todo - {id};
        var user := users[id];
        assert user.id == id;
        if keyword != "" {
          var word := Lowered(keyword, lower);
          if !Contains(Lowered(user.username, lower), word) && !Contains(Lowered(user.email, lower), word) {
            continue;
          }
        }
        filtered := filtered + [user];
      }
    }

    /** The page is cut out of some enumeration of the matching users. */
    method List(keyword: string, lower: char -> char, page: int, pageSize: int)
      returns (r: Slice<User>, total: int)
      requires Valid()
      ensures exists listing :: Enumerates(listing, users, keyword, lower)
                                && total == Wrap32(|listing|) && r == Cut(listing, page, pageSize)
    {
      var filtered := Filter(keyword, lower);
      r, total := CutPage(filtered, page, pageSize);
    }
  }
}
