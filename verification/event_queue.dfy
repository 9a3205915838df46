/** `EventQueue`: the sweep's pending events, kept in an AVL tree ordered by the
    point order, with a counter of queued events. */
module EventQueue {
  import opened Options
  import opened Orders
  import opened AvlCore
  import opened AvlTree
  import opened AvlSearch
  import opened Geometry
  import opened SizedTrees

  type Queue = Sized<Point>

  /** The queue holds an event at the same place and of the same kind as `e`. */
  ghost predicate Queued(q: Queue, e: Point) {
    exists p :: p in Keys(q.tree) && p.x == e.x && p.y == e.y && p.eventType == e.eventType
  }

  /** `EventQueue.__init__`: an empty queue. */
  function NewQueue(): (q: Queue)
    ensures Keys(q.tree) == {} && q.size == 0
  {
    Empty()
  }

  /** `EventQueue.insert_event`: the counter goes up exactly when the event was
      added. */
  function InsertEvent(q: Queue, e: Point): (res: (Queue, bool))
    ensures res.0.size == if res.1 then q.size + 1 else q.size
    ensures Keys(res.0.tree) == if res.1 then Keys(q.tree) + {e} else Keys(q.tree)
  {
    Add(PointLess, q, e)
  }

  /** `EventQueue.remove_event`: the counter goes down exactly when an event was
      removed. */
  function RemoveEvent(q: Queue, e: Point): (res: (Queue, bool))
    ensures res.0.size == if res.1 then q.size - 1 else q.size
    ensures Keys(res.0.tree) <= Keys(q.tree)
  {
    Remove(PointLess, q, e)
  }

  /** `EventQueue.get_nearest_event`: the tree's minimum. */
  function GetNearestEvent(q: Queue): (m: Option<Point>)
    ensures m.None? <==> q.tree.Nil?
    ensures m.Some? ==> m.value in Keys(q.tree)
  {
    Min(q.tree)
  }

  /** A new queue is well formed. */
  lemma NewQueueInv()
    ensures Inv(PointLess, NewQueue())
  {
    EmptyInv(PointLess);
  }

  /** Inserting keeps the queue well formed and is refused exactly when an
      event at the same place and of the same kind is already queued. */
  lemma InsertEventSpec(q: Queue, e: Point)
    requires Inv(PointLess, q)
    ensures Inv(PointLess, InsertEvent(q, e).0)
    ensures InsertEvent(q, e).1 <==> !Queued(q, e)
  {
    PointOrderIsStrictWeak();
    AddKeepsInv(PointLess, q, e);
    QueuedIsMember(q, e);
  }

  /** Removing keeps the queue well formed, succeeds exactly when an event at the
      same place and of the same kind is queued, and takes out exactly that one. */
  lemma RemoveEventSpec(q: Queue, e: Point)
    requires Inv(PointLess, q)
    ensures Inv(PointLess, RemoveEvent(q, e).0)
    ensures RemoveEvent(q, e).1 <==> Queued(q, e)
    ensures forall p :: p in Keys(RemoveEvent(q, e).0.tree) <==>
      p in Keys(q.tree) && !(p.x == e.x && p.y == e.y && p.eventType == e.eventType)
  {
    PointOrderIsStrictWeak();
    RemoveKeepsInv(PointLess, q, e);
    QueuedIsMember(q, e);
    forall p ensures Equiv(PointLess, p, e) <==> p.x == e.x && p.y == e.y && p.eventType == e.eventType {
      PointEquivIff(p, e);
    }
  }

  /** For points, tree membership means an event at the same place and of the
      same kind. */
  lemma QueuedIsMember(q: Queue, e: Point)
    ensures Member(PointLess, q.tree, e) <==> Queued(q, e)
  {
    forall p ensures Equiv(PointLess, p, e) <==> p.x == e.x && p.y == e.y && p.eventType == e.eventType {
      PointEquivIff(p, e);
    }
  }

  /** The nearest event is absent exactly when the counter is zero, and otherwise
      no queued event comes before it. */
  lemma NearestEventIsFirst(q: Queue)
    requires Inv(PointLess, q)
    ensures GetNearestEvent(q).None? <==> q.size == 0
    ensures GetNearestEvent(q).Some? ==>
      forall p :: p in Keys(q.tree) ==> p == GetNearestEvent(q).value || PointLess(GetNearestEvent(q).value, p)
  {
    PointOrderIsStrictWeak();
    MinIsLeast(PointLess, q.tree);
    if q.tree.Node? {
      assert q.tree.key in Keys(q.tree);
    }
  }
}
