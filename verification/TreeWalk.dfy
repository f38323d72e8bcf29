/** The explicit-stack walk of the managed environment, against the recursive traversal. */
module TreeWalk {
  import opened Bytes
  import opened Order
  import opened Outcomes
  import opened TreeDigest
  import opened TreeIdentity
  import opened TreeTotals

  const MAX_ENTRIES := 100_000
  const MAX_BYTES := 2 * 1024 * 1024 * 1024
  /** b"ra8-managed-python-tree-v1\0" */
  const PREFIX: Bytes := [114, 97, 56, 45, 109, 97, 110, 97, 103, 101, 100, 45, 112, 121, 116, 104, 111, 110,
                          45, 116, 114, 101, 101, 45, 118, 49, 0]

  /** The bytes fed to the hash so far, and the two running totals. */
  datatype Identity = Identity(stream: Bytes, entries: nat, bytes: nat)

  ghost function Summary(records: seq<Rec>): Identity {
    Identity(PREFIX + Encoded(records), |records|, FileBytes(records))
  }

  /** The walk refuses an object that its policy does not trust (owner, permission
      bits, where a link leads), that cannot be encoded, or that exceeds a bound. */
  ghost predicate Accepted(trust: Rec -> bool, records: seq<Rec>) {
    && AllEncodable(records) && AllTrusted(trust, records)
    && |records| <= MAX_ENTRIES && FileBytes(records) <= MAX_BYTES
  }

  ghost predicate AllTrusted(trust: Rec -> bool, records: seq<Rec>) {
    forall i | 0 <= i < |records| :: trust(records[i])
  }

  lemma {:induction false} AcceptedPrefix(trust: Rec -> bool, a: seq<Rec>, b: seq<Rec>)
    requires Accepted(trust, a + b)
    ensures Accepted(trust, a)
  {
    hide Encodable;
    if b == [] {
      assert a + b == a;
    } else {
      var init := b[..|b| - 1];
      assert (a + b)[..|a + b| - 1] == a + init;
      AcceptedPrefix(trust, a, init);
    }
  }

  /** Appends one record and bumps the totals, within the bounds. */
  method AppendRecord(trust: Rec -> bool, state: Identity, rec: Rec, ghost done: seq<Rec>) returns (r: Result<Identity>)
    requires state == Summary(done) && Accepted(trust, done)
    ensures r == if Accepted(trust, done + [rec]) then Ok(Summary(done + [rec])) else Err
  {
    hide RecordBytes;
    assert (done + [rec])[..|done|] == done;
    assert (done + [rec])[|done|] == rec;
    if !Encodable(rec) || !trust(rec) {
      return Err;
    }
    var stream := state.stream + RecordBytes(rec);
    assert PREFIX + Encoded(done) + RecordBytes(rec) == PREFIX + (Encoded(done) + RecordBytes(rec));
    var bytes := state.bytes + if rec.kind == F then rec.size else 0;
    var entries := state.entries + 1;
    if entries > MAX_ENTRIES || (rec.kind != D && bytes > MAX_BYTES) {
      return Err;
    }
    r := Ok(Identity(stream, entries, bytes));
  }

  // ------------------------------------------------------------------ stack

  /** A directory waiting to be visited. */
  datatype Task = Task(path: Bytes, node: Node)

  ghost predicate Ready(pending: seq<Task>) {
    forall i | 0 <= i < |pending| :: pending[i].node.Dir? && Valid(pending[i].node)
  }

  /** What the waiting directories still contribute, top of the stack first. */
  ghost function Remaining(pending: seq<Task>): seq<Rec>
    requires Ready(pending)
  {
    if pending == [] then [] else
      var top := pending[|pending| - 1];
      Visit(top.path, top.node) + Remaining(pending[..|pending| - 1])
  }

  lemma RemainingPush(pending: seq<Task>, t: Task)
    requires Ready(pending) && t.node.Dir? && Valid(t.node)
    ensures Ready(pending + [t]) && Remaining(pending + [t]) == Visit(t.path, t.node) + Remaining(pending)
  {
    assert (pending + [t])[..|pending|] == pending;
  }

  /** One child, in the reversed order of the listing: directories are pushed, everything else is recorded. */
  method TakeChild(trust: Rec -> bool, path: Bytes, kid: Keyed<Node>, state: Identity, pending: seq<Task>,
                   ghost done: seq<Rec>)
    returns (next: Result<Identity>, pending': seq<Task>)
    requires state == Summary(done) && Accepted(trust, done) && Ready(pending) && Valid(kid.value)
    ensures next == if Accepted(trust, done + LeafPart(path, kid)) then Ok(Summary(done + LeafPart(path, kid))) else Err
    ensures Ready(pending')
    ensures Remaining(pending')
              == (if IsSubtree(path, kid) then Visit(Rel(path, kid.key), kid.value) else []) + Remaining(pending)
  {
    hide Summary, Accepted, Visit, Remaining, Ready, LeafRec;
    next, pending' := Ok(state), pending;
    var relative := Rel(path, kid.key);
    assert done + [] == done && [] + Remaining(pending) == Remaining(pending);
    if relative != RECEIPT {
      if kid.value.Dir? {
        pending' := pending + [Task(relative, kid.value)];
        RemainingPush(pending, Task(relative, kid.value));
      } else {
        next := AppendRecord(trust, state, LeafRec(relative, kid.value), done);
      }
    }
  }

  /** The loop over reversed(children) of one directory. */
  method TakeChildren(trust: Rec -> bool, path: Bytes, kids: seq<Keyed<Node>>, start: Identity, waiting: seq<Task>,
                      ghost done: seq<Rec>)
    returns (r: Result<Identity>, pending: seq<Task>)
    requires start == Summary(done) && Accepted(trust, done) && Ready(waiting)
    requires forall i | 0 <= i < |kids| :: Valid(kids[i].value)
    ensures r == if Accepted(trust, done + Leaves(path, kids)) then Ok(Summary(done + Leaves(path, kids))) else Err
    ensures Ready(pending) && (r.Ok? ==> Remaining(pending) == Subtrees(path, kids) + Remaining(waiting))
  {
    hide Summary, Accepted, Visit, Remaining, Ready, Valid, LeafPart, Subtrees, IsSubtree;
    var state := start;
    pending := waiting;
    ghost var now := done;
    var i := |kids|;
    assert kids[..i] == kids;
    while i > 0
      invariant 0 <= i <= |kids|
      invariant state == Summary(now) && Accepted(trust, now) && Ready(pending)
      invariant now + Leaves(path, kids[..i]) == done + Leaves(path, kids)
      invariant Subtrees(path, kids[..i]) + Remaining(pending) == Subtrees(path, kids) + Remaining(waiting)
    {
      i := i - 1;
      var next;
      ghost var before := pending;
      next, pending := TakeChild(trust, path, kids[i], state, pending, now);
      ChildStep(path, kids, i, now);
      if next.Err? {
        if Accepted(trust, done + Leaves(path, kids)) {
          AcceptedPrefix(trust, now + LeafPart(path, kids[i]), Leaves(path, kids[..i]));
        }
        return Err, pending;
      }
      state := next.value;
      now := now + LeafPart(path, kids[i]);
      StackStep(path, kids, i, Remaining(before), Remaining(pending));
    }
    assert kids[..0] == [];
    SubtreesNone(path, Remaining(pending));
    assert now + Leaves(path, []) == now;
    return Ok(state), pending;
  }

  lemma ChildStep(p: Bytes, kids: seq<Keyed<Node>>, i: nat, now: seq<Rec>)
    requires i < |kids|
    ensures now + Leaves(p, kids[..i + 1]) == (now + LeafPart(p, kids[i])) + Leaves(p, kids[..i])
  {
    hide LeafPart;
    assert kids[..i + 1][..i] == kids[..i];
  }

  lemma StackStep(p: Bytes, kids: seq<Keyed<Node>>, i: nat, before: seq<Rec>, after: seq<Rec>)
    requires i < |kids|
    requires after == (if IsSubtree(p, kids[i]) then Visit(Rel(p, kids[i].key), kids[i].value) else []) + before
    ensures Subtrees(p, kids[..i + 1]) + before == Subtrees(p, kids[..i]) + after
  {
    hide Visit, Subtrees, IsReceipt;
    assert kids[..i + 1][..i] == kids[..i];
    SubtreesLast(p, kids[..i + 1]);
  }

  /** The records that a directory contributes on its own, before its subdirectories. */
  ghost function Own(t: Task): seq<Rec>
    requires t.node.Dir?
  {
    [DirRec(t.path, t.node)] + Leaves(t.path, t.node.kids)
  }

  /** One turn of the outer loop, on the directory just popped. */
  method TakeDirectory(trust: Rec -> bool, top: Task, enumerate: Node -> seq<Keyed<Node>>, start: Identity,
                       waiting: seq<Task>, ghost done: seq<Rec>)
    returns (r: Result<Identity>, pending: seq<Task>)
    requires top.node.Dir? && Valid(top.node) && Ready(waiting)
    requires multiset(enumerate(top.node)) == multiset(top.node.kids)
    requires start == Summary(done) && Accepted(trust, done)
    ensures r == if Accepted(trust, done + Own(top)) then Ok(Summary(done + Own(top))) else Err
    ensures Ready(pending) && (r.Ok? ==> Remaining(pending) == Subtrees(top.path, top.node.kids) + Remaining(waiting))
  {
    hide Accepted, Summary, Remaining, Valid, Ready, Leaves, Subtrees, Ascending;
    pending := waiting;
    ghost var d := done + [DirRec(top.path, top.node)];
    assert d + Leaves(top.path, top.node.kids) == done + Own(top);
    var entered := AppendRecord(trust, start, DirRec(top.path, top.node), done);
    if entered.Err? {
      Refuse(trust, d, Leaves(top.path, top.node.kids));
      return Err, pending;
    }
    ValidListing(top.node);
    var children := Sort(enumerate(top.node));
    SortEnumeration(enumerate(top.node), top.node.kids);
    r, pending := TakeChildren(trust, top.path, children, entered.value, waiting, d);
  }

  /** Walks the tree with a stack. The result does not depend on the order in
      which any directory enumerates its children; the totals are those of the tree. */
  method Walk(trust: Rec -> bool, environment: Node, enumerate: Node -> seq<Keyed<Node>>) returns (r: Result<Identity>)
    requires Valid(environment)
    requires forall n: Node | n.Dir? :: multiset(enumerate(n)) == multiset(n.kids)
    ensures r.Ok? <==>
              && environment.Dir? && AllEncodable(Visit(ROOT, environment))
                && AllTrusted(trust, Visit(ROOT, environment))
              && Objects(Pruned(environment)) <= MAX_ENTRIES && StoredBytes(Pruned(environment)) <= MAX_BYTES
    ensures r.Ok? ==> r.value == Identity(PREFIX + Encoded(Visit(ROOT, environment)),
                                          Objects(Pruned(environment)), StoredBytes(Pruned(environment)))
  {
    hide Accepted, Summary, Visit, Remaining, Valid, Ready, Objects, StoredBytes, Pruned, AllEncodable, AllTrusted;
    if !environment.Dir? {
      return Err;
    }
    ghost var total := Visit(ROOT, environment);
    AcceptedTree(trust, environment);
    ghost var done: seq<Rec> := [];
    var state := Identity(PREFIX, 0, 0);
    var pending := [Task(ROOT, environment)];
    WalkStart(trust, environment);
    while pending != []
      invariant Ready(pending) && done + Remaining(pending) == total
      invariant state == Summary(done) && Accepted(trust, done)
      decreases |total| - |done|
    {
      PopSplit(pending, done);
      var top := pending[|pending| - 1];
      var taken;
      ghost var rest := Subtrees(top.path, top.node.kids) + Remaining(pending[..|pending| - 1]);
      taken, pending := TakeDirectory(trust, top, enumerate, state, pending[..|pending| - 1], done);
      done := done + Own(top);
      if taken.Err? {
        Refuse(trust, done, rest);
        return Err;
      }
      state := taken.value;
    }
    RemainingNone();
    assert done + [] == done;
    return Ok(state);
  }

  /** The bounds on the records are bounds on the tree itself, without its receipt. */
  lemma AcceptedTree(trust: Rec -> bool, environment: Node)
    requires environment.Dir? && Valid(environment)
    ensures var records := Visit(ROOT, environment);
            && (Accepted(trust, records) <==>
                  && AllEncodable(records) && AllTrusted(trust, records)
                  && Objects(Pruned(environment)) <= MAX_ENTRIES && StoredBytes(Pruned(environment)) <= MAX_BYTES)
            && Summary(records)
               == Identity(PREFIX + Encoded(records), Objects(Pruned(environment)), StoredBytes(Pruned(environment)))
  {
    hide Visit, Objects, StoredBytes, Pruned, Encodable;
    RootTotals(environment);
  }

  lemma RemainingNone()
    ensures Remaining([]) == []
  {
  }

  lemma Refuse(trust: Rec -> bool, done: seq<Rec>, rest: seq<Rec>)
    requires !Accepted(trust, done)
    ensures !Accepted(trust, done + rest)
  {
    if Accepted(trust, done + rest) {
      AcceptedPrefix(trust, done, rest);
    }
  }

  lemma WalkStart(trust: Rec -> bool, environment: Node)
    requires environment.Dir? && Valid(environment)
    ensures Ready([Task(ROOT, environment)])
    ensures Remaining([Task(ROOT, environment)]) == Visit(ROOT, environment)
    ensures [] + Visit(ROOT, environment) == Visit(ROOT, environment)
    ensures Accepted(trust, []) && Summary([]) == Identity(PREFIX, 0, 0)
  {
    hide Visit;
    RemainingNone();
    RemainingPush([], Task(ROOT, environment));
    assert [] + [Task(ROOT, environment)] == [Task(ROOT, environment)];
    assert Visit(ROOT, environment) + [] == Visit(ROOT, environment);
  }

  lemma PopSplit(pending: seq<Task>, done: seq<Rec>)
    requires Ready(pending) && pending != []
    ensures var top, rest := pending[|pending| - 1], pending[..|pending| - 1];
            && Ready(rest) && top.node.Dir? && Valid(top.node)
            && done + Remaining(pending) == (done + Own(top)) + (Subtrees(top.path, top.node.kids) + Remaining(rest))
            && |Own(top)| > 0
  {
    hide Leaves, Subtrees, Valid;
    var top, rest := pending[|pending| - 1], pending[..|pending| - 1];
    Regroup(done, Own(top), Subtrees(top.path, top.node.kids), Remaining(rest));
  }

  lemma Regroup<T>(a: seq<T>, b: seq<T>, c: seq<T>, d: seq<T>)
    ensures a + ((b + c) + d) == (a + b) + (c + d)
  {
  }
}
