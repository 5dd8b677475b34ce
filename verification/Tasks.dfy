/** The task records of multi_task/task.h and the lists of children that setup_links of knl_fork.c builds. */
module Tasks {
  import opened Machine

  // The registers an interrupt saves on the kernel stack (struct IrqFrame) and a task resumes with (struct
  // X86TSS); segment registers aside.
  datatype Context = Context(eip: nat, eflags: nat, eax: nat, ecx: nat, edx: nat, ebx: nat,
                             esp: nat, ebp: nat, esi: nat, edi: nat)

  class Task {
    var pid: int
    var cr3: nat
    var esp0: nat
    var context: Context
    var parent: Task?
    var childHead: Task?
    var childTail: Task?
    var next: Task?
    var prev: Task?
    ghost var children: seq<Task>

    // A record in a page that is zero but for its first word.
    constructor ()
      ensures children == [] && childHead == childTail == null
    {
      pid, cr3, esp0, context := 0, 0, 0, Context(0, 0, 0, 0, 0, 0, 0, 0, 0, 0);
      parent, childHead, childTail, next, prev, children := null, null, null, null, null, [];
    }
  }

  // Child k of t is linked to t and to its neighbours.
  ghost predicate Linked(t: Task, kids: seq<Task>, k: nat)
    requires k < |kids|
    reads kids`parent, kids`prev, kids`next
  {
    var c := kids[k];
    && c.parent == t
    && c.prev == (if k > 0 then kids[k - 1] else null)
    && c.next == (if k + 1 < |kids| then kids[k + 1] else null)
  }

  ghost predicate ChildList(t: Task, kids: seq<Task>)
    reads t`childHead, t`childTail, kids`parent, kids`prev, kids`next
  {
    && Distinct(kids)
    && t.childHead == (if kids == [] then null else kids[0])
    && t.childTail == (if kids == [] then null else kids[|kids| - 1])
    && forall k :: 0 <= k < |kids| ==> Linked(t, kids, k)
  }

  // The children of every task are tasks, listed in the order they were forked.
  ghost predicate Family(all: set<Task>)
    reads all`children, all`childHead, all`childTail, all`parent, all`prev, all`next
  {
    forall t :: t in all ==> (forall c :: c in t.children ==> c in all) && ChildList(t, t.children)
  }

  // setup_links: the new task becomes the last child of the current one.
  method SetupLinks(cur: Task, newTask: Task, ghost all: set<Task>)
    requires Family(all) && cur in all && newTask !in all
    modifies all`childHead, all`childTail, all`children, all`next
    modifies newTask`parent, newTask`childHead, newTask`childTail, newTask`next, newTask`prev, newTask`children
    ensures Family(all + {newTask}) && cur.children == old(cur.children) + [newTask] && newTask.children == []
    ensures forall t :: t in all && t != cur ==> t.children == old(t.children)
  {
    hide ChildList;
    ChildrenApart(all, cur);
    Append(cur, newTask);
    forall t | t in all && t != cur ensures ChildList(t, t.children) {
      assert old(ChildList(t, t.children)) && t.children == old(t.children);
      assert forall c :: c in t.children ==> c in all && c != newTask && c !in old(cur.children);
      assert forall c :: c in t.children ==> c.next == old(c.next) && c.prev == old(c.prev) && c.parent == old(c.parent);
    }
  }

  // The code of setup_links, seen from the one list it changes.
  method Append(cur: Task, newTask: Task)
    requires ChildList(cur, cur.children) && newTask != cur && newTask !in cur.children
    modifies cur`childHead, cur`childTail, cur`children, cur.children`next
    modifies newTask`parent, newTask`childHead, newTask`childTail, newTask`next, newTask`prev, newTask`children
    ensures ChildList(cur, cur.children) && cur.children == old(cur.children) + [newTask]
    ensures ChildList(newTask, []) && newTask.children == []
  {
    ghost var before := cur.children;
    newTask.parent := cur;
    newTask.childHead := null;
    newTask.childTail := null;
    newTask.next := null;
    newTask.prev := cur.childTail;
    if cur.childTail != null {
      cur.childTail.next := newTask;
    }
    if cur.childHead == null {
      cur.childHead := newTask;
    }
    cur.childTail := newTask;
    newTask.children := [];
    cur.children := cur.children + [newTask];
    forall k | 0 <= k < |cur.children| ensures Linked(cur, cur.children, k) {
      if k < |before| {
        assert old(Linked(cur, cur.children, k)) && cur.children[k] == before[k];
      }
    }
  }

  // No task's child is another task's.
  lemma ChildrenApart(all: set<Task>, cur: Task)
    requires Family(all) && cur in all
    ensures forall t :: t in all ==> ChildList(t, t.children) && forall c :: c in t.children ==> c in all
    ensures forall t, c :: t in all && t != cur && c in t.children ==> c !in cur.children
  {
    forall t, c | t in all && c in t.children ensures c.parent == t {
      var k :| 0 <= k < |t.children| && t.children[k] == c;
      assert Linked(t, t.children, k);
    }
    forall t, c | t in all && t != cur && c in t.children ensures c !in cur.children {
      assert c.parent == t;
    }
  }
}
