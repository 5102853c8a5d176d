/**
  InMemoryRepository<T>: a store of entities keyed by their Guid Id, held in one sequence
  that every mutator replaces by a new one (filter, append).

  T is any BaseEntity; the store reads and writes only its Id, so an entity is modelled
  as an immutable value: its Id and a payload of the type parameter P that the store
  never looks at. The Task wrappers of the C# class complete synchronously; the methods
  here return what the Task would carry.
 */
module Repositories {
  import opened Wrappers
  import opened Guids

  /** An entity of the store: BaseEntity's Id and the rest of the record. */
  datatype Entity<P> = Entity(id: Guid, payload: P)

  /** The exception a faulted Task carries. */
  datatype Error = InvalidOperationException(message: string)

  /** How a returned Task ends: ran to completion, or faulted with an exception. */
  datatype Outcome = Completed | Faulted(error: Error)

  // ---------------------------------------------------------------------------
  // The sequence-level operations the repository is built from
  // ---------------------------------------------------------------------------

  /** Some entry of s has Id id. */
  predicate HasId<P>(s: seq<Entity<P>>, id: Guid) {
    exists i :: 0 <= i < |s| && s[i].id == id
  }

  /** No two entries of s share an Id. */
  predicate IdsDistinct<P>(s: seq<Entity<P>>) {
    forall i, j :: 0 <= i < j < |s| ==> s[i].id != s[j].id
  }

  /** e stands in s at a position with Id id before which no entry has Id id. */
  ghost predicate IsFirstWithId<P>(s: seq<Entity<P>>, id: Guid, e: Entity<P>) {
    exists i :: 0 <= i < |s| && s[i] == e && e.id == id && forall j :: 0 <= j < i ==> s[j].id != id
  }

  /** The number of entries of s with Id id. */
  function CountId<P>(s: seq<Entity<P>>, id: Guid): (n: nat)
    ensures n <= |s|
    ensures n == 0 <==> !HasId(s, id)
  {
    if s == [] then 0
    else
      var n := CountId(s[1..], id);
      assert HasId(s, id) <==> s[0].id == id || HasId(s[1..], id) by {
        if HasId(s[1..], id) {
          var i :| 0 <= i < |s[1..]| && s[1..][i].id == id;
          assert s[i + 1].id == id;
        }
        if HasId(s, id) && s[0].id != id {
          var i :| 0 <= i < |s| && s[i].id == id;
          assert s[1..][i - 1].id == id;
        }
      }
      (if s[0].id == id then 1 else 0) + n
  }

  /** LINQ's FirstOrDefault(x => x.Id == id): the first entry with Id id, or None (null). */
  function FirstWithId<P>(s: seq<Entity<P>>, id: Guid): (r: Option<Entity<P>>)
    ensures r.None? <==> !HasId(s, id)
    ensures r.Some? ==> IsFirstWithId(s, id, r.value)
  {
    if s == [] then None
    else if s[0].id == id then
      Some(s[0])
    else
      var r := FirstWithId(s[1..], id);
      assert HasId(s[1..], id) ==> HasId(s, id) by {
        if HasId(s[1..], id) {
          var i :| 0 <= i < |s[1..]| && s[1..][i].id == id;
          assert s[i + 1].id == id;
        }
      }
      assert HasId(s, id) ==> HasId(s[1..], id) by {
        if HasId(s, id) {
          var i :| 0 <= i < |s| && s[i].id == id;
          assert s[1..][i - 1].id == id;
        }
      }
      assert r.Some? ==> IsFirstWithId(s, id, r.value) by {
        if r.Some? {
          var i :| 0 <= i < |s[1..]| && s[1..][i] == r.value && r.value.id == id &&
                   forall j :: 0 <= j < i ==> s[1..][j].id != id;
          assert s[i + 1] == r.value;
          assert forall j :: 0 <= j < i + 1 ==> s[j].id != id by {
            forall j | 0 <= j < i + 1 ensures s[j].id != id {
              if j > 0 { assert s[j] == s[1..][j - 1]; }
            }
          }
        }
      }
      r
  }

  /** LINQ's Where(d => d.Id != id): the entries of s whose Id is not id, in their order in s. */
  function WithoutId<P>(s: seq<Entity<P>>, id: Guid): (r: seq<Entity<P>>)
    ensures |r| <= |s|
    ensures forall i :: 0 <= i < |r| ==> r[i] in s && r[i].id != id
    ensures forall i :: 0 <= i < |s| && s[i].id != id ==> s[i] in r
    ensures !HasId(r, id)
    ensures !HasId(s, id) ==> r == s
  {
    if s == [] then []
    else
      var rest := WithoutId(s[1..], id);
      assert !HasId(s, id) ==> !HasId(s[1..], id) by {
        if HasId(s[1..], id) {
          var i :| 0 <= i < |s[1..]| && s[1..][i].id == id;
          assert s[i + 1].id == id;
        }
      }
      assert s == [s[0]] + s[1..];
      if s[0].id == id then rest else [s[0]] + rest
  }

  /** The text of the exception UpdateItemData raises for an absent Id. */
  function NotFoundMessage(id: Guid): (m: string)
    ensures |m| == 61
    ensures ParseGuid(m[15..51]) == Some(id)
  {
    var m := "Object with Id " + FormatGuid(id) + " not found";
    assert m[15..51] == FormatGuid(id);
    m
  }

  // ---------------------------------------------------------------------------
  // The repository
  // ---------------------------------------------------------------------------

  /** InMemoryRepository<T>, with T's payload as P; the field Data is `data`. */
  class InMemoryRepository<P> {
    var data: seq<Entity<P>>

    /** The store starts from the seed collection it is given, as given. */
    constructor (seed: seq<Entity<P>>)
      ensures data == seed
    {
      data := seed;
    }

    /** GetAllAsync: the stored contents, in stored order. */
    function GetAll(): (r: seq<Entity<P>>)
      reads this
      ensures r == data
    {
      data
    }

    /** GetByIdAsync: the first stored entity with Id id, or None (null) if there is none. */
    function GetById(id: Guid): (r: Option<Entity<P>>)
      reads this
      ensures r.None? <==> !HasId(data, id)
      ensures r.Some? ==> IsFirstWithId(data, id, r.value)
    {
      FirstWithId(data, id)
    }

    /** DeleteByIdAsync: drops every entity with Id id; never fails, also when id is absent. */
    method DeleteById(id: Guid)
      modifies this
      ensures data == WithoutId(old(data), id)
      ensures GetById(id) == None
      ensures forall other :: other != id ==> GetById(other) == old(GetById(other))
      ensures !HasId(old(data), id) ==> data == old(data)
      ensures IdsDistinct(old(data)) ==> IdsDistinct(data)
      ensures IdsDistinct(old(data)) && HasId(old(data), id) ==> |data| == |old(data)| - 1
    {
      data := WithoutId(data, id);
      WithoutIdKeepsOthers(old(data), id);
      if IdsDistinct(old(data)) {
        WithoutIdKeepsDistinct(old(data), id);
        if HasId(old(data), id) {
          DeleteShrinksByOne(old(data), id);
        }
      }
    }

    /**
      InsertItemData: gives the item the Id newId (the value of Guid.NewGuid(), which the model takes as an argument) and
      appends it. The item with its new Id is returned, as the caller's object is changed.
     */
    method InsertItemData(item: Entity<P>, newId: Guid) returns (stored: Entity<P>)
      modifies this
      ensures stored == item.(id := newId)
      ensures data == old(data) + [stored]
      ensures !HasId(old(data), newId) ==> GetById(newId) == Some(stored)
      ensures IdsDistinct(old(data)) && !HasId(old(data), newId) ==> IdsDistinct(data)
    {
      stored := item.(id := newId);
      data := data + [stored];
      if !HasId(old(data), newId) {
        GetAfterInsert(old(data), item, newId);
        if IdsDistinct(old(data)) {
          InsertKeepsDistinct(old(data), item, newId);
        }
      }
    }

    /**
      UpdateItemData: faults with InvalidOperationException naming the Id if no entity has
      item's Id and then changes nothing; otherwise drops every entity with that Id and
      appends item.
     */
    method UpdateItemData(item: Entity<P>) returns (outcome: Outcome)
      modifies this
      ensures outcome == if HasId(old(data), item.id) then Completed
                         else Faulted(InvalidOperationException(NotFoundMessage(item.id)))
      ensures data == if HasId(old(data), item.id) then WithoutId(old(data), item.id) + [item]
                      else old(data)
      ensures outcome.Completed? ==> GetById(item.id) == Some(item)
      ensures IdsDistinct(old(data)) ==> IdsDistinct(data)
      ensures IdsDistinct(old(data)) ==> |data| == |old(data)|
    {
      var existingItem := FirstWithId(data, item.id);
      if existingItem.None? {
        return Faulted(InvalidOperationException(NotFoundMessage(item.id)));
      }
      var newData := WithoutId(data, item.id);
      newData := newData + [item];
      data := newData;
      GetAfterUpdate(old(data), item);
      if IdsDistinct(old(data)) {
        UpdateKeepsDistinct(old(data), item);
        UpdateKeepsLength(old(data), item);
      }
      return Completed;
    }
  }

  // ---------------------------------------------------------------------------
  // Properties
  // ---------------------------------------------------------------------------

  /** Filtering distributes over concatenation: the kept entries stay in their relative order. */
  lemma {:induction false} WithoutIdAppend<P>(a: seq<Entity<P>>, b: seq<Entity<P>>, id: Guid)
    ensures WithoutId(a + b, id) == WithoutId(a, id) + WithoutId(b, id)
    decreases |a|
  {
    if a != [] {
      var ab := a + b;
      assert ab[0] == a[0] && ab[1..] == a[1..] + b;
      WithoutIdAppend(a[1..], b, id);
      if a[0].id != id {
        assert WithoutId(ab, id) == [a[0]] + WithoutId(a[1..] + b, id);
        assert WithoutId(a, id) == [a[0]] + WithoutId(a[1..], id);
      }
    } else {
      assert a + b == b;
    }
  }

  /** Two kept entries appear in the filtered sequence in the order they had in s. */
  lemma WithoutIdKeepsOrder<P>(s: seq<Entity<P>>, id: Guid, i: nat, j: nat)
    requires i < j < |s| && s[i].id != id && s[j].id != id
    ensures exists a, b :: 0 <= a < b < |WithoutId(s, id)| &&
                           WithoutId(s, id)[a] == s[i] && WithoutId(s, id)[b] == s[j]
  {
    var front, middle, back := s[..i], s[i + 1..j], s[j + 1..];
    var wf, wm, wb := WithoutId(front, id), WithoutId(middle, id), WithoutId(back, id);
    var r := wf + ([s[i]] + (wm + ([s[j]] + wb)));
    assert WithoutId(s, id) == r by {
      var tail2 := [s[j]] + back;
      var tail1 := [s[i]] + (middle + tail2);
      assert s == front + tail1;
      WithoutIdAppend(front, tail1, id);
      WithoutIdAppend([s[i]], middle + tail2, id);
      WithoutIdAppend(middle, tail2, id);
      WithoutIdAppend([s[j]], back, id);
      assert WithoutId([s[i]], id) == [s[i]] && WithoutId([s[j]], id) == [s[j]];
    }
    MarkedPositions(wf, s[i], wm, s[j], wb);
  }

  /** In front + [x] + middle + [y] + back, x stands at |front| and y at |front| + 1 + |middle|. */
  lemma MarkedPositions<T>(front: seq<T>, x: T, middle: seq<T>, y: T, back: seq<T>)
    ensures var r := front + ([x] + (middle + ([y] + back)));
            |front| + 1 + |middle| < |r| && r[|front|] == x && r[|front| + 1 + |middle|] == y
  {
  }

  /** The filter removes exactly the entries with Id id: the length drops by their number. */
  lemma {:induction false} WithoutIdLength<P>(s: seq<Entity<P>>, id: Guid)
    ensures |WithoutId(s, id)| == |s| - CountId(s, id)
  {
    if s != [] {
      WithoutIdLength(s[1..], id);
    }
  }

  /** With distinct Ids, an Id occurs at most once. */
  lemma {:induction false} DistinctCountAtMostOne<P>(s: seq<Entity<P>>, id: Guid)
    requires IdsDistinct(s)
    ensures CountId(s, id) <= 1
  {
    if s != [] {
      assert IdsDistinct(s[1..]) by {
        forall i, j | 0 <= i < j < |s[1..]| ensures s[1..][i].id != s[1..][j].id {
          assert s[1..][i] == s[i + 1] && s[1..][j] == s[j + 1];
        }
      }
      DistinctCountAtMostOne(s[1..], id);
    }
  }

  /** Deleting a present Id from a store with distinct Ids removes exactly one entity. */
  lemma DeleteShrinksByOne<P>(s: seq<Entity<P>>, id: Guid)
    requires IdsDistinct(s) && HasId(s, id)
    ensures |WithoutId(s, id)| == |s| - 1
  {
    WithoutIdLength(s, id);
    DistinctCountAtMostOne(s, id);
  }

  /** Deleting the same Id twice leaves the state of deleting it once. */
  lemma DeleteIdempotent<P>(s: seq<Entity<P>>, id: Guid)
    ensures WithoutId(WithoutId(s, id), id) == WithoutId(s, id)
  {
  }

  /** Ids are distinct in a sequence exactly when the head's Id is not in the tail and the tail's Ids are distinct. */
  lemma DistinctCons<P>(x: Entity<P>, t: seq<Entity<P>>)
    ensures IdsDistinct([x] + t) <==> !HasId(t, x.id) && IdsDistinct(t)
  {
    var s := [x] + t;
    if IdsDistinct(s) {
      forall i, j | 0 <= i < j < |t| ensures t[i].id != t[j].id {
        assert t[i] == s[i + 1] && t[j] == s[j + 1];
      }
      forall k | 0 <= k < |t| ensures t[k].id != x.id {
        assert t[k] == s[k + 1] && x == s[0];
      }
    }
    if !HasId(t, x.id) && IdsDistinct(t) {
      forall i, j | 0 <= i < j < |s| ensures s[i].id != s[j].id {
        assert s[j] == t[j - 1];
        if i > 0 { assert s[i] == t[i - 1]; }
      }
    }
  }

  /** The filtered sequence holds an Id exactly when the Id is not the one filtered out and s holds it. */
  lemma {:induction false} HasIdWithoutId<P>(s: seq<Entity<P>>, id: Guid, k: Guid)
    ensures HasId(WithoutId(s, id), k) <==> k != id && HasId(s, k)
  {
    if s != [] {
      HasIdWithoutId(s[1..], id, k);
      assert s == [s[0]] + s[1..];
      HasIdCons(s[0], s[1..], k);
      if s[0].id != id {
        HasIdCons(s[0], WithoutId(s[1..], id), k);
      }
    }
  }

  /** A sequence holds an Id exactly when its head or its tail does. */
  lemma HasIdCons<P>(x: Entity<P>, t: seq<Entity<P>>, k: Guid)
    ensures HasId([x] + t, k) <==> x.id == k || HasId(t, k)
  {
    var s := [x] + t;
    if x.id == k {
      assert s[0].id == k;
    }
    if HasId(t, k) {
      var i :| 0 <= i < |t| && t[i].id == k;
      assert s[i + 1].id == k;
    }
    if HasId(s, k) && x.id != k {
      var i :| 0 <= i < |s| && s[i].id == k;
      assert t[i - 1].id == k;
    }
  }

  /** Delete keeps the Ids distinct. */
  lemma {:induction false} WithoutIdKeepsDistinct<P>(s: seq<Entity<P>>, id: Guid)
    requires IdsDistinct(s)
    ensures IdsDistinct(WithoutId(s, id))
  {
    if s != [] {
      assert s == [s[0]] + s[1..];
      DistinctCons(s[0], s[1..]);
      WithoutIdKeepsDistinct(s[1..], id);
      if s[0].id != id {
        HasIdWithoutId(s[1..], id, s[0].id);
        DistinctCons(s[0], WithoutId(s[1..], id));
      }
    }
  }

  /** Appending an entity whose Id is not yet present keeps the Ids distinct. */
  lemma AppendFreshKeepsDistinct<P>(s: seq<Entity<P>>, e: Entity<P>)
    requires IdsDistinct(s) && !HasId(s, e.id)
    ensures IdsDistinct(s + [e])
  {
    var r := s + [e];
    forall i, j | 0 <= i < j < |r| ensures r[i].id != r[j].id {
      if j == |s| {
        assert r[i] == s[i];
      } else {
        assert r[i] == s[i] && r[j] == s[j];
      }
    }
  }

  /** Insert keeps the Ids distinct when the generated Id is not already stored. */
  lemma InsertKeepsDistinct<P>(s: seq<Entity<P>>, item: Entity<P>, newId: Guid)
    requires IdsDistinct(s) && !HasId(s, newId)
    ensures IdsDistinct(s + [item.(id := newId)])
  {
    AppendFreshKeepsDistinct(s, item.(id := newId));
  }

  /** A successful update keeps the Ids distinct when the Ids were distinct before. */
  lemma UpdateKeepsDistinct<P>(s: seq<Entity<P>>, item: Entity<P>)
    requires IdsDistinct(s)
    ensures IdsDistinct(WithoutId(s, item.id) + [item])
  {
    WithoutIdKeepsDistinct(s, item.id);
    AppendFreshKeepsDistinct(WithoutId(s, item.id), item);
  }

  /** A successful update of a store with distinct Ids replaces one entity: the length stays. */
  lemma UpdateKeepsLength<P>(s: seq<Entity<P>>, item: Entity<P>)
    requires IdsDistinct(s) && HasId(s, item.id)
    ensures |WithoutId(s, item.id) + [item]| == |s|
  {
    DeleteShrinksByOne(s, item.id);
  }

  /** FirstOrDefault on a concatenation looks in the second part only if the first has no match. */
  lemma {:induction false} FirstWithIdAppend<P>(a: seq<Entity<P>>, b: seq<Entity<P>>, id: Guid)
    ensures FirstWithId(a + b, id) == if HasId(a, id) then FirstWithId(a, id) else FirstWithId(b, id)
    decreases |a|
  {
    if a == [] {
      assert a + b == b;
    } else {
      assert (a + b)[1..] == a[1..] + b;
      FirstWithIdAppend(a[1..], b, id);
      if a[0].id != id && HasId(a, id) {
        var i :| 0 <= i < |a| && a[i].id == id;
        assert a[1..][i - 1].id == id;
      }
    }
  }

  /** After an insert with a fresh Id, looking that Id up finds the inserted item. */
  lemma GetAfterInsert<P>(s: seq<Entity<P>>, item: Entity<P>, newId: Guid)
    requires !HasId(s, newId)
    ensures FirstWithId(s + [item.(id := newId)], newId) == Some(item.(id := newId))
  {
    FirstWithIdAppend(s, [item.(id := newId)], newId);
  }

  /** After a successful update, looking the Id up finds exactly the new item. */
  lemma GetAfterUpdate<P>(s: seq<Entity<P>>, item: Entity<P>)
    ensures FirstWithId(WithoutId(s, item.id) + [item], item.id) == Some(item)
  {
    FirstWithIdAppend(WithoutId(s, item.id), [item], item.id);
  }

  /** Deleting one Id changes the lookup of no other Id. */
  lemma {:induction false} WithoutIdKeepsOthers<P>(s: seq<Entity<P>>, id: Guid)
    ensures forall other :: other != id ==> FirstWithId(WithoutId(s, id), other) == FirstWithId(s, other)
  {
    if s != [] {
      WithoutIdKeepsOthers(s[1..], id);
      if s[0].id != id {
        assert WithoutId(s, id) == [s[0]] + WithoutId(s[1..], id);
        forall other | other != id
          ensures FirstWithId(WithoutId(s, id), other) == FirstWithId(s, other)
        {
          FirstWithIdAppend([s[0]], WithoutId(s[1..], id), other);
          FirstWithIdAppend([s[0]], s[1..], other);
          assert s == [s[0]] + s[1..];
        }
      }
    }
  }

  /** A client of the repository: a store seeded with one employee, updated, then emptied. */
  method Scenario(a1: Guid, unknown: Guid)
    requires a1 != unknown
  {
    var ann := Entity(a1, "Ann");
    var repo := new InMemoryRepository([ann]);
    assert repo.data[0] == ann && HasId(repo.data, a1);
    assert repo.GetById(a1) == Some(ann);
    var outcome := repo.UpdateItemData(Entity(a1, "Annie"));
    assert outcome == Completed;
    assert repo.GetById(a1) == Some(Entity(a1, "Annie"));
    outcome := repo.UpdateItemData(Entity(unknown, "Bob"));
    assert outcome == Faulted(InvalidOperationException(NotFoundMessage(unknown)));
    repo.DeleteById(a1);
    assert repo.GetById(a1) == None;
    assert repo.GetAll() == [];
  }
}
