/** libc/include/list.h: circular lists threaded through the entities themselves. */
module EntityList {
  import opened Machine

  class ListEntity {
    var prev: ListEntity?
    var next: ListEntity?

    constructor ()
      ensures prev == next == null
    {
      prev, next := null, null;
    }
  }

  // s is the circular doubly linked list entered at head.
  ghost predicate IsCircle(head: ListEntity?, s: seq<ListEntity>)
    reads s`prev, s`next
  {
    && Distinct(s)
    && head == (if s == [] then null else s[0])
    && (forall i {:trigger s[i].next} :: 0 <= i < |s| ==> s[i].next == s[Succ(i, |s|)])
    && (forall i {:trigger s[i].prev} :: 0 <= i < |s| ==> s[i].prev == s[Pred(i, |s|)])
  }

  // e has been linked in between the last element of s and the first.
  ghost predicate LinkedIn(s: seq<ListEntity>, e: ListEntity)
    reads s`prev, s`next, e
  {
    && s != [] && Distinct(s) && e !in s
    && e.prev == s[|s| - 1] && e.next == s[0] && s[|s| - 1].next == e && s[0].prev == e
    && (forall k {:trigger s[k].next} :: 0 <= k < |s| - 1 ==> s[k].next == s[k + 1])
    && (forall k {:trigger s[k].prev} :: 0 < k < |s| ==> s[k].prev == s[k - 1])
  }

  class ListHead {
    var list: ListEntity?
    ghost var entities: seq<ListEntity>

    ghost predicate Valid()
      reads this, entities`prev, entities`next
    {
      IsCircle(list, entities)
    }

    constructor ()
      ensures Valid() && entities == []
    {
      list, entities := null, [];
    }

    // The statements the two pushes share: the entity goes between the last one and the head.
    method LinkIn(entity: ListEntity)
      requires Valid() && entity !in entities && list != null
      modifies entities`prev, entities`next, entity
      ensures LinkedIn(entities, entity)
    {
      var prev := list.prev;
      entity.prev := prev;
      entity.next := list;
      prev.next := entity;
      list.prev := entity;
    }

    method PushBack(entity: ListEntity)
      requires Valid() && entity !in entities
      modifies this, entities`prev, entities`next, entity
      ensures Valid() && entities == old(entities) + [entity]
    {
      if list == null {
        list := entity;
        list.prev := entity;
        list.next := entity;
        assert entities + [entity] == [entity];
      } else {
        LinkIn(entity);
        CircleBehind(entities, entity);
      }
      entities := entities + [entity];
    }

    method PushFront(entity: ListEntity)
      requires Valid() && entity !in entities
      modifies this, entities`prev, entities`next, entity
      ensures Valid() && entities == [entity] + old(entities)
    {
      if list == null {
        list := entity;
        list.prev := entity;
        list.next := entity;
      } else {
        LinkIn(entity);
        CircleAhead(entities, entity);
        list := entity;
      }
      entities := [entity] + entities;
    }

    // The entity keeps the links it had in the list.
    method PopFront() returns (ret: ListEntity?)
      requires Valid()
      modifies this, entities`prev, entities`next
      ensures Valid()
      ensures old(entities) == [] ==> ret == null && entities == []
      ensures old(entities) != [] ==>
                && ret == old(entities)[0] && entities == old(entities)[1..]
                && ret.next == old(ret.next) && ret.prev == old(ret.prev)
    {
      if list == null {
        return null;
      }
      ret := list;
      if ret.next == ret {
        list := null;
      } else {
        OneIsAlone(entities, 0, ret);
        list := ret.next;
        ret.prev.next := ret.next;
        ret.next.prev := ret.prev;
        CircleWithout(entities, 0);
      }
      entities := Without(entities, 0);
    }

    // remove_entity looks at the entity's links alone.  One that is its own neighbour is taken for the only one of
    // this list, even if it is not in it, and every entity is dropped; otherwise its neighbours are joined,
    // whichever list they are in.
    method RemoveEntity(entity: ListEntity, ghost i: nat)
      requires Valid()
      requires entity in entities ==> i < |entities| && entities[i] == entity
      modifies this, entity`prev, entity`next, Behind(entity)`prev, Ahead(entity)`next
      ensures entity in old(entities) ==>
                Valid() && entities == Without(old(entities), i) && entity.next == entity.prev == null
      ensures entity !in old(entities) && (old(entities) == [] || old(entity.next) == null || old(entity.prev) == null) ==>
                && Valid() && entities == old(entities)
                && entity.next == old(entity.next) && entity.prev == old(entity.prev)
                && (forall x :: x in old(Behind(entity)) ==> x.prev == old(x.prev))
                && (forall x :: x in old(Ahead(entity)) ==> x.next == old(x.next))
      ensures entity !in old(entities) && old(entities) != [] && old(entity.next) != null && old(entity.prev) != null ==>
                && entity.next == entity.prev == null
                && if old(entity.next) == entity || old(entity.prev) == entity then Valid() && entities == []
                   else && list == old(list) && entities == old(entities)
                        && old(entity.next).prev == old(entity.prev) && old(entity.prev).next == old(entity.next)
      ensures entity !in old(entities) && old(entities) != [] && old(entity.next) != null && old(entity.prev) != null ==>
                (Valid() && entities == old(entities) <==>
                 && old(entity.next) != entity && old(entity.prev) != entity
                 && (old(entity.next) in old(entities) ==> old(entity.next.prev) == old(entity.prev))
                 && (old(entity.prev) in old(entities) ==> old(entity.prev.next) == old(entity.next)))
    {
      if list == null {
        return;
      }
      if entity.next == null || entity.prev == null {
        return;
      }
      var next, prev := entity.next, entity.prev;
      if next != entity && prev != entity {
        Join(entity, i);
      } else {
        list := null;
        entities := [];
      }
      entity.next := null;
      entity.prev := null;
    }

    // The entity's neighbours are joined; its own links stay.
    method Join(entity: ListEntity, ghost i: nat)
      requires Valid() && (entity in entities ==> i < |entities| && entities[i] == entity)
      requires entity.next != null && entity.prev != null && entity.next != entity && entity.prev != entity
      modifies this, entity.next`prev, entity.prev`next
      ensures entity in old(entities) ==> Valid() && entities == Without(old(entities), i)
      ensures entity !in old(entities) ==> list == old(list) && entities == old(entities)
      ensures entity !in old(entities) ==>
                (Valid() <==> (entity.next in entities ==> old(entity.next.prev) == entity.prev) &&
                              (entity.prev in entities ==> old(entity.prev.next) == entity.next))
      ensures entity.next == old(entity.next) && entity.prev == old(entity.prev)
      ensures entity.next.prev == entity.prev && entity.prev.next == entity.next
    {
      var next, prev := entity.next, entity.prev;
      next.prev := prev;
      prev.next := next;
      if entity == list {
        list := next;
      }
      if entity in entities {
        CircleWithout(entities, i);
        entities := Without(entities, i);
      }
    }
  }

  // The entity an entity's next link names, if any, and the one its prev link names.
  ghost function Behind(e: ListEntity): set<ListEntity>
    reads e
  {
    if e.next == null then {} else {e.next}
  }

  ghost function Ahead(e: ListEntity): set<ListEntity>
    reads e
  {
    if e.prev == null then {} else {e.prev}
  }

  // Only in a list of one is an entity its own neighbour.
  lemma OneIsAlone(s: seq<ListEntity>, i: nat, entity: ListEntity)
    requires Distinct(s) && i < |s| && s[i] == entity
    requires (forall k {:trigger s[k].next} :: 0 <= k < |s| ==> s[k].next == s[Succ(k, |s|)])
    requires entity.next != entity
    ensures |s| >= 2
  {
  }

  // The circle with the new entity, entered at the old head.
  lemma CircleBehind(s: seq<ListEntity>, e: ListEntity)
    requires LinkedIn(s, e)
    ensures IsCircle(s[0], s + [e])
  {
  }

  // The same circle, entered at the new entity.
  lemma CircleAhead(s: seq<ListEntity>, e: ListEntity)
    requires LinkedIn(s, e)
    ensures IsCircle(e, [e] + s)
  {
  }

  // The circle after the neighbours of the entity at i have been joined.
  lemma CircleWithout(s: seq<ListEntity>, i: nat)
    requires Distinct(s) && i < |s| && |s| >= 2
    requires s[Pred(i, |s|)].next == s[Succ(i, |s|)] && s[Succ(i, |s|)].prev == s[Pred(i, |s|)]
    requires forall k {:trigger s[k].next} :: 0 <= k < |s| && k != i && k != Pred(i, |s|) ==> s[k].next == s[Succ(k, |s|)]
    requires forall k {:trigger s[k].prev} :: 0 <= k < |s| && k != i && k != Succ(i, |s|) ==> s[k].prev == s[Pred(k, |s|)]
    ensures IsCircle(Without(s, i)[0], Without(s, i))
  {
    var t := Without(s, i);
    DistinctWithout(s, i);
    forall j | 0 <= j < |t| ensures t[j].next == t[Succ(j, |t|)] && t[j].prev == t[Pred(j, |t|)] {
      NeighboursWithout(s, i, j);
    }
  }

  /** Removing an entity of list k through the head of another list: that list stays as it is and the entity
      leaves its own circle, but k's head follows exactly if the entity was not its first. */
  method RemoveThroughOtherHead(l: ListHead, k: ListHead, entity: ListEntity, ghost i: nat)
    requires l != k && l.Valid() && k.Valid() && l.entities != []
    requires |k.entities| >= 2 && i < |k.entities| && k.entities[i] == entity
    requires forall e :: e in k.entities ==> e !in l.entities
    modifies l, k.entities`prev, k.entities`next
    ensures l.Valid() && l.entities == old(l.entities)
    ensures IsCircle(Without(old(k.entities), i)[0], Without(old(k.entities), i))
    ensures IsCircle(k.list, Without(old(k.entities), i)) <==> i != 0
  {
    ghost var s := k.entities;
    assert entity.next == s[Succ(i, |s|)] && entity.prev == s[Pred(i, |s|)];
    l.RemoveEntity(entity, 0);
    CircleWithout(s, i);
  }
}
