/**
  The `applyGroups` controller plugin: it assigns a list of groups to a user,
  an item set, an item or a media, with the collection actions "replace",
  "append" and "remove", and optionally propagates groups from item sets to
  their items and from items to their media.

  Nothing is flushed by the plugin: every join-table read sees the rows as
  they were before the call. The whole effect of one call is therefore a plan,
  a sequence of per-entity steps all computed from the same pre-call rows
  (InvokePlan), and the method Invoke schedules exactly that plan's changes.
*/
module ApplyGroupsPlugin {
  import opened Php
  import opened Store

  datatype EntityKind = UserKind | ItemSetKind | ItemKind | MediaKind

  /** The entity given to the plugin; id 0 stands for an entity not saved yet. */
  datatype Entity = Entity(kind: EntityKind, id: nat)

  /** The host's resource graph, as the entities' getters expose it. */
  datatype Catalog = Catalog(
    itemsOf: nat -> seq<nat>,     // ItemSet::getItems()
    itemSetsOf: nat -> seq<nat>,  // Item::getItemSets()
    mediaOf: nat -> seq<nat>,     // Item::getMedia()
    itemOfMedia: nat -> nat)      // Media::getItem()->getId()

  /** A row of the groups table, as the API returns it. */
  datatype Group = Group(id: nat, name: string)

  /**
    A PHP value as it reaches checkGroups: a string, an int, or anything else
    (false from reset() on an empty array, null, a float).
  */
  datatype Scalar = Str(s: string) | Int(n: int) | Other

  /** One element of the list of groups given to the plugin. */
  datatype GroupRef =
    | EntityRef(group: Group)   // a Group entity
    | ObjectRef(id: nat)        // a representation or a reference: id() returns an int
    | ArrayRef(oid: Option<Scalar>, oname: Option<Scalar>, first: Scalar)  // 'o:id', 'o:name' (None: absent or null), reset()
    | ValueRef(value: Scalar)   // a group id or a group name, as a string or an int

  /** The documented "no mix": every element is of the kind of the first one. */
  predicate SameKind(refs: seq<GroupRef>)
  {
    forall i :: 0 <= i < |refs| ==>
      (refs[i].EntityRef? <==> refs[0].EntityRef?) &&
      (refs[i].ObjectRef? <==> refs[0].ObjectRef?) &&
      (refs[i].ArrayRef? <==> refs[0].ArrayRef?)
  }

  /** The value a non-entity reference is searched by. */
  function KeyOf(r: GroupRef): Scalar
    requires !r.EntityRef?
  {
    match r
    case ObjectRef(id) => Int(id)
    case ArrayRef(oid, oname, first) =>
      if oid.Some? then oid.value else if oname.Some? then oname.value else first
    case ValueRef(v) => v
  }

  /** The keys of a list of non-entity references, in order. */
  function KeysOf(refs: seq<GroupRef>): (keys: seq<Scalar>)
    requires forall i :: 0 <= i < |refs| ==> !refs[i].EntityRef?
    ensures |keys| == |refs| && forall i :: 0 <= i < |refs| ==> keys[i] == KeyOf(refs[i])
  {
    seq(|refs|, i requires 0 <= i < |refs| => KeyOf(refs[i]))
  }

  /** Whether the key, used in a search by id, selects group id g. */
  predicate KeySelectsId(k: Scalar, g: nat)
  {
    match k
    case Str(s) => IsIdString(s) && IdValue(s) == g
    case Int(n) => n == g
    case Other => false
  }

  /** The API search `groups` by 'id' (byId) or by 'name' on a list of keys. */
  predicate Selects(keys: seq<Scalar>, byId: bool, g: Group)
  {
    if byId then exists k :: k in keys && KeySelectsId(k, g.id)
    else Str(g.name) in keys
  }

  /** The search itself: the groups of the table the keys select, in table order. */
  function SearchGroups(table: seq<Group>, keys: seq<Scalar>, byId: bool): (r: seq<Group>)
    ensures forall g :: g in r <==> g in table && Selects(keys, byId, g)
  {
    if |table| == 0 then []
    else
      var rest := SearchGroups(table[1..], keys, byId);
      assert forall g :: g in table <==> g == table[0] || g in table[1..];
      if Selects(keys, byId, table[0]) then [table[0]] + rest else rest
  }

  /** What checkGroups gives back: group ids, or the TypeError it raises. */
  datatype Checked = Found(ids: set<nat>) | TypeError

  /**
    Whether checkGroups hands preg_match a first key that is not a string.
    The file declares strict_types, so preg_match then raises a TypeError.
  */
  predicate ThrowsTypeError(refs: seq<GroupRef>)
  {
    |refs| > 0 && !refs[0].EntityRef? && !KeyOf(refs[0]).Str?
  }

  /**
    checkGroups, as written: the ids of the groups the references designate.
    Entities are taken as they are. Other references become keys, and the
    first key alone decides whether all keys are ids or all are names; it
    must be a string, or preg_match raises a TypeError before any search.
  */
  function CheckedGroups(refs: seq<GroupRef>, table: seq<Group>): (r: Checked)
    requires SameKind(refs)
    ensures r.TypeError? <==> |refs| > 0 && !refs[0].EntityRef? && !KeyOf(refs[0]).Str?
    ensures refs == [] ==> r == Found({})
    ensures refs != [] && refs[0].EntityRef? ==>
      forall id :: id in r.ids <==> exists i :: 0 <= i < |refs| && refs[i].group.id == id
    ensures r.Found? && refs != [] && !refs[0].EntityRef? ==>
      var keys := KeysOf(refs);
      forall id :: id in r.ids <==>
        exists g :: g in table && g.id == id && Selects(keys, IsIdString(keys[0].s), g)
  {
    if |refs| == 0 then Found({})
    else if refs[0].EntityRef? then
      Found(set i | 0 <= i < |refs| :: refs[i].group.id)
    else
      var keys := KeysOf(refs);
      if !keys[0].Str? then TypeError
      else Found(set g | g in SearchGroups(table, keys, IsIdString(keys[0].s)) :: g.id)
  }

  /**
    preg_match('~^\d+$~') on a key read as a string: an int that is not
    negative is digits, false and null read as "".
  */
  predicate IsIdKey(k: Scalar)
  {
    match k
    case Str(s) => IsIdString(s)
    case Int(n) => n >= 0
    case Other => false
  }

  /**
    checkGroups as evidently intended: the first key is read as a string, as
    it would be without strict_types, so an int id is searched by id.
  */
  function CheckedGroupsCast(refs: seq<GroupRef>, table: seq<Group>): (r: set<nat>)
    requires SameKind(refs)
    ensures refs == [] ==> r == {}
    ensures refs != [] && refs[0].EntityRef? ==>
      forall id :: id in r <==> exists i :: 0 <= i < |refs| && refs[i].group.id == id
    ensures refs != [] && !refs[0].EntityRef? ==>
      var keys := KeysOf(refs);
      forall id :: id in r <==>
        exists g :: g in table && g.id == id && Selects(keys, IsIdKey(keys[0]), g)
  {
    if |refs| == 0 then {}
    else if refs[0].EntityRef? then
      set i | 0 <= i < |refs| :: refs[i].group.id
    else
      var keys := KeysOf(refs);
      set g | g in SearchGroups(table, keys, IsIdKey(keys[0])) :: g.id
  }

  /** Where checkGroups does not raise, it returns what the intended reading returns. */
  lemma CheckedGroupsAgree(refs: seq<GroupRef>, table: seq<Group>)
    requires SameKind(refs)
    ensures CheckedGroups(refs, table).TypeError? || CheckedGroups(refs, table) == Found(CheckedGroupsCast(refs, table))
  {
  }

  /**
    As written: a first reference that is an object other than an entity, or
    an array or a value carrying an int id, makes checkGroups raise, whatever
    the groups table holds.
  */
  lemma IntReferenceThrows(refs: seq<GroupRef>, table: seq<Group>)
    requires SameKind(refs) && |refs| > 0
    requires refs[0].ObjectRef? || (refs[0].ArrayRef? && refs[0].oid.Some? && refs[0].oid.value.Int?)
      || (refs[0].ValueRef? && refs[0].value.Int?)
    ensures CheckedGroups(refs, table) == TypeError
  {
  }

  /**
    Intended: references that all carry int ids (objects, or arrays and
    values holding ints) designate exactly the stored groups with those ids.
  */
  lemma {:induction false} IntReferencesSelectTheirGroups(refs: seq<GroupRef>, table: seq<Group>)
    requires SameKind(refs) && |refs| > 0 && !refs[0].EntityRef?
    requires forall i :: 0 <= i < |refs| ==> KeyOf(refs[i]).Int? && KeyOf(refs[i]).n >= 0
    ensures forall id :: id in CheckedGroupsCast(refs, table) <==>
      (exists g :: g in table && g.id == id) && exists i :: 0 <= i < |refs| && KeyOf(refs[i]) == Int(id)
  {
    var keys := KeysOf(refs);
    assert IsIdKey(keys[0]) by {
      assert keys[0] == KeyOf(refs[0]);
    }
    forall id
      ensures id in CheckedGroupsCast(refs, table) <==>
        (exists g :: g in table && g.id == id) && exists i :: 0 <= i < |refs| && KeyOf(refs[i]) == Int(id)
    {
      if id in CheckedGroupsCast(refs, table) {
        var g :| g in table && g.id == id && Selects(keys, true, g);
        var k :| k in keys && KeySelectsId(k, g.id);
        var i :| 0 <= i < |keys| && keys[i] == k;
        assert KeyOf(refs[i]) == Int(id);
      }
      if (exists g :: g in table && g.id == id) && exists i :: 0 <= i < |refs| && KeyOf(refs[i]) == Int(id) {
        var g :| g in table && g.id == id;
        var i :| 0 <= i < |refs| && KeyOf(refs[i]) == Int(id);
        assert keys[i] in keys && KeySelectsId(keys[i], g.id);
      }
    }
  }

  /**
    listWithIdAsKey: the entities keyed by id. Every id occurs as a key, and
    each key holds the last entity of the list with that id.
  */
  method ListWithIdAsKey<T>(entities: seq<T>, id: T -> nat) returns (result: map<nat, T>)
    ensures result.Keys == set i | 0 <= i < |entities| :: id(entities[i])
    ensures forall k :: k in result ==>
      exists i :: 0 <= i < |entities| && id(entities[i]) == k && result[k] == entities[i] &&
        forall j :: i < j < |entities| ==> id(entities[j]) != k
  {
    result := map[];
    for n := 0 to |entities|
      invariant result.Keys == set i | 0 <= i < n :: id(entities[i])
      invariant forall k :: k in result ==>
        exists i :: 0 <= i < n && id(entities[i]) == k && result[k] == entities[i] &&
          forall j :: i < j < n ==> id(entities[j]) != k
    {
      result := result[id(entities[n]) := entities[n]];
    }
  }

  /** The privilege the ACL must grant on the join entity for each action. */
  datatype Privilege = CreatePrivilege | UpdatePrivilege | DeletePrivilege

  function PrivilegeFor(action: Action): Privilege
  {
    match action
    case Replace => UpdatePrivilege
    case Append => CreatePrivilege
    case Remove => DeletePrivilege
  }

  /** GroupUser for a user, GroupResource for any resource. */
  function TableFor(kind: EntityKind): Table
  {
    if kind == UserKind then GroupUserTable else GroupResourceTable
  }

  /**
    getItemGroupsFromItemSets: the groups of the item's item sets. When the
    item is processed from an item set (`from` is that item set), that item set
    is left out of the search and contributes `supplied` instead.
  */
  function GroupsFromItemSets(c: Catalog, rows: set<Row>, item: nat, from: Option<nat>, supplied: set<nat>): set<nat>
  {
    var sets := (set s | s in c.itemSetsOf(item)) - (if from.Some? then {from.value} else {});
    if sets == {} then (if from.Some? && supplied != {} then supplied else {})
    else
      var found := GroupsOfAll(rows, GroupResourceTable, sets);
      if from.Some? && supplied != {} then found + supplied else found
  }

  /**
    The groups from above are the union of the groups of the item's other item
    sets and, when processed from an item set, of the supplied groups; with no
    other item set they are the supplied groups, or none.
  */
  lemma GroupsFromItemSetsUnion(c: Catalog, rows: set<Row>, item: nat, from: Option<nat>, supplied: set<nat>)
    ensures var others := (set s | s in c.itemSetsOf(item)) - (if from.Some? then {from.value} else {});
      GroupsFromItemSets(c, rows, item, from, supplied)
        == GroupsOfAll(rows, GroupResourceTable, others) + (if from.Some? then supplied else {})
    ensures forall g :: g in GroupsFromItemSets(c, rows, item, from, supplied) <==>
      (from.Some? && g in supplied) ||
      exists s :: s in c.itemSetsOf(item) && (from.None? || s != from.value) && Row(GroupResourceTable, g, s) in rows
  {
    var others := (set s | s in c.itemSetsOf(item)) - (if from.Some? then {from.value} else {});
    if others == {} {
      assert GroupsOfAll(rows, GroupResourceTable, others) == {};
    }
  }

  /** One replacing step per resource, in order. */
  function ReplaceSteps(ids: seq<nat>, groups: set<nat>): (plan: seq<Step>)
    ensures |plan| == |ids|
    ensures forall k :: 0 <= k < |ids| ==> plan[k] == Step(GroupResourceTable, ids[k], groups, Replace)
  {
    seq(|ids|, k requires 0 <= k < |ids| => Step(GroupResourceTable, ids[k], groups, Replace))
  }

  /** applyGroupsToItemAndMedia: the same groups replace those of the item and of each of its media. */
  function ItemAndMediaSteps(c: Catalog, item: nat, groups: set<nat>): (plan: seq<Step>)
    ensures |plan| == 1 + |c.mediaOf(item)|
    ensures plan[0] == Step(GroupResourceTable, item, groups, Replace)
    ensures forall k :: 0 <= k < |c.mediaOf(item)| ==>
      plan[k + 1] == Step(GroupResourceTable, c.mediaOf(item)[k], groups, Replace)
  {
    [Step(GroupResourceTable, item, groups, Replace)] + ReplaceSteps(c.mediaOf(item), groups)
  }

  /** Pending sets holding the item's changes, then its media's, hold those of ItemAndMediaSteps. */
  lemma ScheduleItemAndMedia(c: Catalog, rows: set<Row>, item: nat, groups: set<nat>,
                             p0: set<Row>, r0: set<Row>, p1: set<Row>, r1: set<Row>, p2: set<Row>, r2: set<Row>)
    requires p1 == p0 + EntityChanges(rows, GroupResourceTable, item, groups, Replace).adds
    requires r1 == r0 + EntityChanges(rows, GroupResourceTable, item, groups, Replace).dels
    requires p2 == p1 + PlanChanges(rows, ReplaceSteps(c.mediaOf(item), groups)).adds
    requires r2 == r1 + PlanChanges(rows, ReplaceSteps(c.mediaOf(item), groups)).dels
    ensures p2 == p0 + PlanChanges(rows, ItemAndMediaSteps(c, item, groups)).adds
    ensures r2 == r0 + PlanChanges(rows, ItemAndMediaSteps(c, item, groups)).dels
  {
    var head := [Step(GroupResourceTable, item, groups, Replace)];
    PlanChangesSnoc(rows, [], head[0]);
    assert [] + [head[0]] == head;
    PlanChangesConcat(rows, head, ReplaceSteps(c.mediaOf(item), groups));
  }

  /** The steps for the items of an item set, in order, each from the groups of its item sets. */
  function ItemSetChildren(c: Catalog, rows: set<Row>, itemSet: nat, items: seq<nat>, groups: set<nat>): seq<Step>
  {
    if |items| == 0 then []
    else
      var last := items[|items| - 1];
      ItemSetChildren(c, rows, itemSet, items[..|items| - 1], groups)
        + ItemAndMediaSteps(c, last, GroupsFromItemSets(c, rows, last, Some(itemSet), groups))
  }

  /**
    The groups an item saved with recursion (and no groups from above)
    evidently should push to itself and its media: the action applied to the
    item's current groups, as the item set case does (see the README,
    Findings). The source passes the requested groups instead.
  */
  function RecursiveItemGroups(rows: set<Row>, item: nat, groups: set<nat>, action: Action): (r: set<nat>)
    ensures action == Replace ==> r == groups
    ensures action == Append ==> r == GroupsOf(rows, GroupResourceTable, item) + groups
    ensures action == Remove ==> r == GroupsOf(rows, GroupResourceTable, item) - groups
    ensures action == Remove ==> r !! groups
  {
    Expected(GroupsOf(rows, GroupResourceTable, item), groups, action)
  }

  /** The corrected steps of a recursive item: the item and its media all receive RecursiveItemGroups. */
  function RecursiveItemPlan(c: Catalog, rows: set<Row>, item: nat, groups: set<nat>, action: Action): seq<Step>
  {
    ItemAndMediaSteps(c, item, RecursiveItemGroups(rows, item, groups, action))
  }

  /** Corrected: once flushed, the item and each of its media hold what the action promises for the item. */
  lemma RecursiveItemPlanFlushed(c: Catalog, rows: set<Row>, item: nat, groups: set<nat>, action: Action, r: nat)
    requires item !in c.mediaOf(item)
    requires forall i, j :: 0 <= i < j < |c.mediaOf(item)| ==> c.mediaOf(item)[i] != c.mediaOf(item)[j]
    requires r == item || r in c.mediaOf(item)
    ensures GroupsOf(Commit(rows, PlanChanges(rows, RecursiveItemPlan(c, rows, item, groups, action))), GroupResourceTable, r)
      == Expected(GroupsOf(rows, GroupResourceTable, item), groups, action)
  {
    ItemAndMediaFlushed(c, rows, item, RecursiveItemGroups(rows, item, groups, action), r);
  }

  /** The steps of __invoke once the ACL has granted the action and the groups are checked. */
  function DispatchPlan(c: Catalog, rows: set<Row>, entity: Entity, groups: set<nat>,
                        action: Action, above: bool, recursive: bool): seq<Step>
  {
    var R := GroupResourceTable;
    match entity.kind
    case UserKind => [Step(GroupUserTable, entity.id, groups, action)]
    case ItemSetKind =>
      [Step(R, entity.id, groups, action)]
        + (if recursive
           then ItemSetChildren(c, rows, entity.id, c.itemsOf(entity.id), Expected(GroupsOf(rows, R, entity.id), groups, action))
           else [])
    case ItemKind =>
      if above then ItemAndMediaSteps(c, entity.id, GroupsFromItemSets(c, rows, entity.id, None, {}))
      // As written, the action is not looked at: the requested groups replace.
      else if recursive then ItemAndMediaSteps(c, entity.id, groups)
      else [Step(R, entity.id, groups, action)]
    case MediaKind =>
      if above then
        (if entity.id != 0 && c.itemOfMedia(entity.id) != 0
         then [Step(R, entity.id, GroupsOf(rows, R, c.itemOfMedia(entity.id)), Replace)]
         else [])
      else [Step(R, entity.id, groups, action)]
  }

  /** All that one call of the plugin schedules, read from the rows before the call. */
  function InvokePlan(c: Catalog, acl: (Table, Privilege) -> bool, table: seq<Group>, rows: set<Row>,
                      entity: Entity, refs: seq<GroupRef>, action: Action, above: bool, recursive: bool): (plan: seq<Step>)
    requires SameKind(refs)
    ensures !acl(TableFor(entity.kind), PrivilegeFor(action)) ==> plan == []
    ensures InvokeThrows(acl, entity, refs, action) ==> plan == []
  {
    if !acl(TableFor(entity.kind), PrivilegeFor(action)) then []
    else match CheckedGroups(refs, table)
      case TypeError => []
      case Found(ids) => DispatchPlan(c, rows, entity, ids, action, above, recursive)
  }

  /** Whether a call passes the ACL gate and then raises in checkGroups, before anything is scheduled. */
  predicate InvokeThrows(acl: (Table, Privilege) -> bool, entity: Entity, refs: seq<GroupRef>, action: Action)
  {
    acl(TableFor(entity.kind), PrivilegeFor(action)) && ThrowsTypeError(refs)
  }

  /** Every step of an item set's children is a "replace" on the resource table. */
  lemma {:induction false} ItemSetChildrenShape(c: Catalog, rows: set<Row>, itemSet: nat, items: seq<nat>, groups: set<nat>)
    ensures forall k :: 0 <= k < |ItemSetChildren(c, rows, itemSet, items, groups)| ==>
      ItemSetChildren(c, rows, itemSet, items, groups)[k].table == GroupResourceTable &&
      ItemSetChildren(c, rows, itemSet, items, groups)[k].action == Replace
    decreases |items|
  {
    if |items| > 0 {
      ItemSetChildrenShape(c, rows, itemSet, items[..|items| - 1], groups);
    }
  }

  /**
    With recursion, every item of an item set and every media of that item
    receive one "replace" step with the same groups: those of the item's
    other item sets together with the item set's groups after the action,
    computed from the rows before the call.
  */
  lemma {:induction false} ItemSetChildrenCover(c: Catalog, rows: set<Row>, itemSet: nat, items: seq<nat>, groups: set<nat>, n: nat)
    requires n < |items|
    ensures var want := GroupsFromItemSets(c, rows, items[n], Some(itemSet), groups);
      var plan := ItemSetChildren(c, rows, itemSet, items, groups);
      && Step(GroupResourceTable, items[n], want, Replace) in plan
      && forall m :: m in c.mediaOf(items[n]) ==> Step(GroupResourceTable, m, want, Replace) in plan
    decreases |items|
  {
    var last := items[|items| - 1];
    var prefix := items[..|items| - 1];
    var tail := ItemAndMediaSteps(c, last, GroupsFromItemSets(c, rows, last, Some(itemSet), groups));
    assert ItemSetChildren(c, rows, itemSet, items, groups) == ItemSetChildren(c, rows, itemSet, prefix, groups) + tail;
    if n == |items| - 1 {
      assert tail[0] in tail;
      forall m | m in c.mediaOf(items[n])
        ensures Step(GroupResourceTable, m, GroupsFromItemSets(c, rows, items[n], Some(itemSet), groups), Replace) in tail
      {
        var k :| 0 <= k < |c.mediaOf(items[n])| && c.mediaOf(items[n])[k] == m;
        assert tail[k + 1] in tail;
      }
    } else {
      assert prefix[n] == items[n];
      ItemSetChildrenCover(c, rows, itemSet, prefix, groups, n);
    }
  }

  /**
    The item set's own step, then the propagation (recursive item set): every
    item and media receives the propagated groups.
  */
  lemma ItemSetPropagation(c: Catalog, rows: set<Row>, id: nat, groups: set<nat>, action: Action, item: nat)
    requires item in c.itemsOf(id)
    ensures var plan := DispatchPlan(c, rows, Entity(ItemSetKind, id), groups, action, false, true);
      var below := Expected(GroupsOf(rows, GroupResourceTable, id), groups, action);
      var want := GroupsFromItemSets(c, rows, item, Some(id), below);
      && plan[0] == Step(GroupResourceTable, id, groups, action)
      && Step(GroupResourceTable, item, want, Replace) in plan
      && forall m :: m in c.mediaOf(item) ==> Step(GroupResourceTable, m, want, Replace) in plan
  {
    var items := c.itemsOf(id);
    var n :| 0 <= n < |items| && items[n] == item;
    var below := Expected(GroupsOf(rows, GroupResourceTable, id), groups, action);
    ItemSetChildrenCover(c, rows, id, items, below, n);
  }

  /** The item and its media, when distinct, make a plan whose steps work on distinct resources. */
  lemma ItemAndMediaDistinct(c: Catalog, item: nat, groups: set<nat>)
    requires item !in c.mediaOf(item)
    requires forall i, j :: 0 <= i < j < |c.mediaOf(item)| ==> c.mediaOf(item)[i] != c.mediaOf(item)[j]
    ensures DistinctTargets(ItemAndMediaSteps(c, item, groups))
  {
    var plan := ItemAndMediaSteps(c, item, groups);
    var media := c.mediaOf(item);
    forall i, j | 0 <= i < j < |plan|
      ensures plan[i].table != plan[j].table || plan[i].entity != plan[j].entity
    {
      if i == 0 {
        assert plan[j].entity == media[j - 1];
      } else {
        assert plan[i].entity == media[i - 1] && plan[j].entity == media[j - 1];
      }
    }
  }

  /** Once flushed, the item and each of its media hold exactly the groups of ItemAndMediaSteps. */
  lemma ItemAndMediaFlushed(c: Catalog, rows: set<Row>, item: nat, groups: set<nat>, r: nat)
    requires item !in c.mediaOf(item)
    requires forall i, j :: 0 <= i < j < |c.mediaOf(item)| ==> c.mediaOf(item)[i] != c.mediaOf(item)[j]
    requires r == item || r in c.mediaOf(item)
    ensures GroupsOf(Commit(rows, PlanChanges(rows, ItemAndMediaSteps(c, item, groups))), GroupResourceTable, r) == groups
  {
    var plan := ItemAndMediaSteps(c, item, groups);
    ItemAndMediaDistinct(c, item, groups);
    CommitPlan(rows, plan);
    if r == item {
      assert plan[0].entity == r;
    } else {
      var k :| 0 <= k < |c.mediaOf(item)| && c.mediaOf(item)[k] == r;
      assert plan[k + 1].entity == r;
    }
  }

  /**
    An item saved with groups from above, once flushed, holds exactly the
    union of the groups of its item sets, and so does each of its media,
    provided the item and its media are distinct resources.
  */
  lemma ItemFromAboveFlushed(c: Catalog, rows: set<Row>, id: nat, groups: set<nat>, action: Action, m: nat)
    requires id !in c.mediaOf(id)
    requires forall i, j :: 0 <= i < j < |c.mediaOf(id)| ==> c.mediaOf(id)[i] != c.mediaOf(id)[j]
    requires m in c.mediaOf(id)
    ensures var after := Commit(rows, PlanChanges(rows, DispatchPlan(c, rows, Entity(ItemKind, id), groups, action, true, false)));
      var want := GroupsOfAll(rows, GroupResourceTable, set s | s in c.itemSetsOf(id));
      && GroupsOf(after, GroupResourceTable, id) == want
      && GroupsOf(after, GroupResourceTable, m) == want
  {
    var want := GroupsFromItemSets(c, rows, id, None, {});
    assert ItemAndMediaSteps(c, id, want) == DispatchPlan(c, rows, Entity(ItemKind, id), groups, action, true, false);
    GroupsFromItemSetsUnion(c, rows, id, None, {});
    var sets := set s | s in c.itemSetsOf(id);
    assert sets - {} == sets;
    assert want == GroupsOfAll(rows, GroupResourceTable, sets);
    ItemAndMediaFlushed(c, rows, id, want, id);
    ItemAndMediaFlushed(c, rows, id, want, m);
  }

  /**
    As written, an item saved with recursion and no groups from above ends,
    with each of its media, with exactly the requested groups, whatever the
    action.
  */
  lemma RecursiveItemFlushedAsWritten(c: Catalog, rows: set<Row>, id: nat, groups: set<nat>, action: Action, r: nat)
    requires id !in c.mediaOf(id)
    requires forall i, j :: 0 <= i < j < |c.mediaOf(id)| ==> c.mediaOf(id)[i] != c.mediaOf(id)[j]
    requires r == id || r in c.mediaOf(id)
    ensures GroupsOf(Commit(rows, PlanChanges(rows, DispatchPlan(c, rows, Entity(ItemKind, id), groups, action, false, true))),
                     GroupResourceTable, r) == groups
  {
    assert DispatchPlan(c, rows, Entity(ItemKind, id), groups, action, false, true) == ItemAndMediaSteps(c, id, groups);
    ItemAndMediaFlushed(c, rows, id, groups, r);
  }

  /**
    As written, a "remove" on a recursive item assigns the very groups it was
    asked to remove: the item holds none of the groups the removal should
    leave, and differs from that result whenever a group is removed.
  */
  lemma RemoveOnRecursiveItemAssignsRemovedGroups(c: Catalog, rows: set<Row>, id: nat, groups: set<nat>, r: nat)
    requires id !in c.mediaOf(id)
    requires forall i, j :: 0 <= i < j < |c.mediaOf(id)| ==> c.mediaOf(id)[i] != c.mediaOf(id)[j]
    requires r == id || r in c.mediaOf(id)
    ensures var after := Commit(rows, PlanChanges(rows, DispatchPlan(c, rows, Entity(ItemKind, id), groups, Remove, false, true)));
      var intended := Expected(GroupsOf(rows, GroupResourceTable, id), groups, Remove);
      && GroupsOf(after, GroupResourceTable, r) == groups
      && GroupsOf(after, GroupResourceTable, r) !! intended
      && (groups != {} ==> GroupsOf(after, GroupResourceTable, r) != intended)
  {
    RecursiveItemFlushedAsWritten(c, rows, id, groups, Remove, r);
    var intended := Expected(GroupsOf(rows, GroupResourceTable, id), groups, Remove);
    if groups != {} {
      var g :| g in groups;
      assert g !in intended;
    }
  }

  /**
    The plugin. `isUser` is set by every call and selects the join table; the
    ACL, the API's groups table and the resource graph are given to it.
  */
  class ApplyGroups {
    const acl: (Table, Privilege) -> bool
    const groupTable: seq<Group>
    const catalog: Catalog
    const em: EntityManager
    var isUser: bool

    constructor (acl: (Table, Privilege) -> bool, groupTable: seq<Group>, catalog: Catalog, em: EntityManager)
      ensures this.acl == acl && this.groupTable == groupTable && this.catalog == catalog && this.em == em
      ensures !isUser
    {
      this.acl := acl;
      this.groupTable := groupTable;
      this.catalog := catalog;
      this.em := em;
      isUser := false;
    }

    /** The entity manager has scheduled exactly c on top of p0 and r0. */
    ghost predicate Scheduled(p0: set<Row>, r0: set<Row>, c: Changes)
      reads this, em
    {
      em.persisted == p0 + c.adds && em.removed == r0 + c.dels
    }

    /** __invoke: the ACL gate, then the dispatch on the kind of entity. */
    method Invoke(entity: Entity, refs: seq<GroupRef>, action: Action, above: bool, recursive: bool)
      returns (thrown: bool)
      requires em.Valid() && SameKind(refs)
      modifies this, em
      ensures em.Valid() && em.rows == old(em.rows)
      ensures isUser == (entity.kind == UserKind)
      ensures thrown <==> InvokeThrows(acl, entity, refs, action)
      ensures Scheduled(old(em.persisted), old(em.removed),
        PlanChanges(old(em.rows), InvokePlan(catalog, acl, groupTable, old(em.rows), entity, refs, action, above, recursive)))
    {
      isUser := entity.kind == UserKind;
      var joinTable := if isUser then GroupUserTable else GroupResourceTable;
      if !acl(joinTable, PrivilegeFor(action)) {
        assert PlanChanges(em.rows, []) == Changes({}, {});
        return false;
      }
      var checked := CheckGroups(refs);
      if checked.TypeError? {
        assert PlanChanges(em.rows, []) == Changes({}, {});
        return true;
      }
      Dispatch(entity, checked.ids, action, above, recursive);
      thrown := false;
    }

    /** The dispatch of __invoke on the kind of entity, once the groups are checked. */
    method Dispatch(entity: Entity, groups: set<nat>, action: Action, above: bool, recursive: bool)
      requires em.Valid() && isUser == (entity.kind == UserKind)
      modifies em
      ensures em.Valid() && em.rows == old(em.rows)
      ensures Scheduled(old(em.persisted), old(em.removed),
        PlanChanges(old(em.rows), DispatchPlan(catalog, old(em.rows), entity, groups, action, above, recursive)))
    {
      match entity.kind {
        case UserKind =>
          ApplyGroupsToEntity(entity.id, groups, action);
          PlanChangesSnoc(em.rows, [], Step(GroupUserTable, entity.id, groups, action));
          assert [] + [Step(GroupUserTable, entity.id, groups, action)] == [Step(GroupUserTable, entity.id, groups, action)];
        case ItemSetKind =>
          ApplyToItemSet(entity.id, groups, action, recursive);
        case ItemKind =>
          ApplyToItem(entity.id, groups, action, above, recursive);
        case MediaKind =>
          ApplyToMedia(entity.id, groups, action, above);
      }
    }

    /** The item set case of __invoke: the item set itself, then, with recursion, its items. */
    method ApplyToItemSet(id: nat, groups: set<nat>, action: Action, recursive: bool)
      requires em.Valid() && !isUser
      modifies em
      ensures em.Valid() && em.rows == old(em.rows)
      ensures Scheduled(old(em.persisted), old(em.removed),
        PlanChanges(old(em.rows), DispatchPlan(catalog, old(em.rows), Entity(ItemSetKind, id), groups, action, false, recursive)))
    {
      ghost var rows, p0, r0 := em.rows, em.persisted, em.removed;
      ghost var head := [Step(GroupResourceTable, id, groups, action)];
      ApplyGroupsToEntity(id, groups, action);
      ScheduleStep(rows, p0, r0, p0, r0, em.persisted, em.removed, [], head[0]);
      assert [] + [head[0]] == head;
      if recursive {
        var below := groups;
        if action == Append || action == Remove {
          // The join table is not flushed: these are the groups before the call.
          var currentGroups := CurrentGroups(id);
          below := if action == Append then currentGroups + groups else currentGroups - groups;
        }
        assert below == Expected(GroupsOf(rows, GroupResourceTable, id), groups, action);
        ghost var p1, r1 := em.persisted, em.removed;
        ApplyToItems(id, catalog.itemsOf(id), below);
        ScheduleConcat(rows, p0, r0, p1, r1, em.persisted, em.removed, head,
          ItemSetChildren(catalog, rows, id, catalog.itemsOf(id), below));
      }
    }

    /** The loop of the item set case over the items of the set. */
    method ApplyToItems(itemSet: nat, items: seq<nat>, below: set<nat>)
      requires em.Valid() && !isUser
      modifies em
      ensures em.Valid() && em.rows == old(em.rows)
      ensures Scheduled(old(em.persisted), old(em.removed),
        PlanChanges(old(em.rows), ItemSetChildren(catalog, old(em.rows), itemSet, items, below)))
    {
      ghost var rows, p0, r0 := em.rows, em.persisted, em.removed;
      for n := 0 to |items|
        invariant em.Valid() && em.rows == rows
        invariant Scheduled(p0, r0, PlanChanges(rows, ItemSetChildren(catalog, rows, itemSet, items[..n], below)))
      {
        ghost var before := ItemSetChildren(catalog, rows, itemSet, items[..n], below);
        ghost var step := ItemAndMediaSteps(catalog, items[n], GroupsFromItemSets(catalog, rows, items[n], Some(itemSet), below));
        ghost var p1, r1 := em.persisted, em.removed;
        ApplyGroupsToItemAndMedia(items[n], below, true, Some(itemSet));
        ScheduleConcat(rows, p0, r0, p1, r1, em.persisted, em.removed, before, step);
        assert items[..n + 1][..n] == items[..n];
        assert ItemSetChildren(catalog, rows, itemSet, items[..n + 1], below) == before + step;
      }
      assert items[..|items|] == items;
    }

    /** The item case of __invoke. */
    method ApplyToItem(id: nat, groups: set<nat>, action: Action, above: bool, recursive: bool)
      requires em.Valid() && !isUser
      modifies em
      ensures em.Valid() && em.rows == old(em.rows)
      ensures Scheduled(old(em.persisted), old(em.removed),
        PlanChanges(old(em.rows), DispatchPlan(catalog, old(em.rows), Entity(ItemKind, id), groups, action, above, recursive)))
    {
      ghost var plan := DispatchPlan(catalog, em.rows, Entity(ItemKind, id), groups, action, above, recursive);
      if above {
        assert plan == ItemAndMediaSteps(catalog, id, GroupsFromItemSets(catalog, em.rows, id, None, {}));
        // The groups of the item sets apply to the media too.
        ApplyGroupsToItemAndMedia(id, {}, true, None);
      } else if recursive {
        // The requested groups replace those of the item and its media, whatever the action.
        assert plan == ItemAndMediaSteps(catalog, id, groups);
        ApplyGroupsToItemAndMedia(id, groups, false, None);
      } else {
        assert plan == [] + [Step(GroupResourceTable, id, groups, action)];
        ApplyGroupsToEntity(id, groups, action);
        PlanChangesSnoc(em.rows, [], Step(GroupResourceTable, id, groups, action));
      }
    }

    /** The media case of __invoke: with groups from above, the media takes its item's groups. */
    method ApplyToMedia(id: nat, groups: set<nat>, action: Action, above: bool)
      requires em.Valid() && !isUser
      modifies em
      ensures em.Valid() && em.rows == old(em.rows)
      ensures Scheduled(old(em.persisted), old(em.removed),
        PlanChanges(old(em.rows), DispatchPlan(catalog, old(em.rows), Entity(MediaKind, id), groups, action, above, false)))
    {
      if above {
        var item := catalog.itemOfMedia(id);
        // During a creation, the media or its item has no id yet.
        if id != 0 && item != 0 {
          var itemGroups := GetItemGroups(item);
          ApplyGroupsToEntity(id, itemGroups, Replace);
          PlanChangesSnoc(em.rows, [], Step(GroupResourceTable, id, itemGroups, Replace));
        }
      } else {
        ApplyGroupsToEntity(id, groups, action);
        PlanChangesSnoc(em.rows, [], Step(GroupResourceTable, id, groups, action));
      }
    }

    /** The groups of the resource in the join table, collected row by row. */
    method CurrentGroups(id: nat) returns (currentGroups: set<nat>)
      ensures currentGroups == GroupsOf(em.rows, GroupResourceTable, id)
    {
      var found := em.FindBy(GroupResourceTable, id);
      currentGroups := {};
      var rest := found;
      while rest != {}
        invariant rest <= found
        invariant forall g :: g in currentGroups <==> exists x :: x in found - rest && x.group == g
        decreases rest
      {
        var x :| x in rest;
        currentGroups := currentGroups + {x.group};
        rest := rest - {x};
      }
      forall g ensures g in currentGroups <==> Row(GroupResourceTable, g, id) in em.rows {
        if g in currentGroups {
          var x :| x in found && x.group == g;
          assert x == Row(GroupResourceTable, g, id);
        }
        if Row(GroupResourceTable, g, id) in em.rows {
          assert Row(GroupResourceTable, g, id) in found - rest;
        }
      }
    }

    /**
      checkGroups: the ids of the designated groups, looked up in the API when
      they are not entities, or the TypeError of preg_match on a first key
      that is not a string.
    */
    method CheckGroups(refs: seq<GroupRef>) returns (checked: Checked)
      requires SameKind(refs)
      ensures checked == CheckedGroups(refs, groupTable)
    {
      if |refs| == 0 {
        return Found({});
      }
      if refs[0].EntityRef? {
        var entities := seq(|refs|, i requires 0 <= i < |refs| => refs[i].group);
        var keyed := ListWithIdAsKey(entities, (g: Group) => g.id);
        var ids := keyed.Keys;
        forall id ensures id in ids <==> exists i :: 0 <= i < |refs| && refs[i].group.id == id {
          if id in ids {
            var i :| 0 <= i < |entities| && ((g: Group) => g.id)(entities[i]) == id;
            assert refs[i].group.id == id;
          } else {
            forall i | 0 <= i < |refs| ensures refs[i].group.id != id {
              assert ((g: Group) => g.id)(entities[i]) in ids;
            }
          }
        }
        return Found(ids);
      }
      var keys := KeysOf(refs);
      if !keys[0].Str? {
        // preg_match is given an int or another non-string under strict_types.
        return TypeError;
      }
      var isId := IsIdString(keys[0].s);
      var found := SearchGroups(groupTable, keys, isId);
      var keyed := ListWithIdAsKey(found, (g: Group) => g.id);
      var ids := keyed.Keys;
      forall id ensures id in ids <==> exists g :: g in found && g.id == id {
        if id in ids {
          var i :| 0 <= i < |found| && ((g: Group) => g.id)(found[i]) == id;
          assert found[i] in found;
        } else {
          forall g | g in found ensures g.id != id {
            var i :| 0 <= i < |found| && found[i] == g;
            assert ((g: Group) => g.id)(found[i]) in ids;
          }
        }
      }
      checked := Found(ids);
    }

    /** getItemGroups: the groups of a saved item, through the API search on item_id. */
    method GetItemGroups(item: nat) returns (groups: set<nat>)
      requires item != 0
      ensures groups == GroupsOf(em.rows, GroupResourceTable, item)
    {
      groups := GroupsOfAll(em.rows, GroupResourceTable, {item});
      forall g ensures g in groups <==> Row(GroupResourceTable, g, item) in em.rows {
      }
    }

    /** getItemGroupsFromItemSets. */
    method GetItemGroupsFromItemSets(item: nat, from: Option<nat>, supplied: set<nat>) returns (groups: set<nat>)
      ensures groups == GroupsFromItemSets(catalog, em.rows, item, from, supplied)
    {
      var keyed := ListWithIdAsKey(catalog.itemSetsOf(item), (s: nat) => s);
      var itemSets := keyed.Keys;
      assert itemSets == set s | s in catalog.itemSetsOf(item) by {
        forall s ensures s in itemSets <==> s in catalog.itemSetsOf(item) {
          if s in catalog.itemSetsOf(item) {
            var i :| 0 <= i < |catalog.itemSetsOf(item)| && catalog.itemSetsOf(item)[i] == s;
            assert ((x: nat) => x)(catalog.itemSetsOf(item)[i]) in itemSets;
          }
        }
      }
      if from.Some? {
        itemSets := itemSets - {from.value};
      }
      // No item set left: nothing to search.
      if itemSets == {} {
        return if from.Some? && supplied != {} then supplied else {};
      }
      groups := GroupsOfAll(em.rows, GroupResourceTable, itemSets);
      if from.Some? && supplied != {} {
        groups := groups + supplied;
      }
    }

    /** applyGroupsToItemAndMedia: the same groups replace those of the item and of each media. */
    method ApplyGroupsToItemAndMedia(item: nat, groups: set<nat>, above: bool, from: Option<nat>)
      requires em.Valid() && !isUser
      modifies em
      ensures em.Valid() && em.rows == old(em.rows)
      ensures Scheduled(old(em.persisted), old(em.removed),
        PlanChanges(old(em.rows), ItemAndMediaSteps(catalog, item,
          if above then GroupsFromItemSets(catalog, old(em.rows), item, from, groups) else groups)))
    {
      ghost var rows, p0, r0 := em.rows, em.persisted, em.removed;
      var newGroups := groups;
      if above {
        newGroups := GetItemGroupsFromItemSets(item, from, groups);
      }
      ApplyGroupsToEntity(item, newGroups, Replace);
      ghost var p1, r1 := em.persisted, em.removed;
      ReplaceOnAll(catalog.mediaOf(item), newGroups);
      ScheduleItemAndMedia(catalog, rows, item, newGroups, p0, r0, p1, r1, em.persisted, em.removed);
    }

    /** The loop of applyGroupsToItemAndMedia over the media of the item. */
    method ReplaceOnAll(ids: seq<nat>, groups: set<nat>)
      requires em.Valid() && !isUser
      modifies em
      ensures em.Valid() && em.rows == old(em.rows)
      ensures Scheduled(old(em.persisted), old(em.removed), PlanChanges(old(em.rows), ReplaceSteps(ids, groups)))
    {
      ghost var rows, p0, r0 := em.rows, em.persisted, em.removed;
      ghost var plan := ReplaceSteps(ids, groups);
      for k := 0 to |ids|
        invariant em.Valid() && em.rows == rows
        invariant Scheduled(p0, r0, PlanChanges(rows, plan[..k]))
      {
        ghost var p1, r1 := em.persisted, em.removed;
        ApplyGroupsToEntity(ids[k], groups, Replace);
        ScheduleStep(rows, p0, r0, p1, r1, em.persisted, em.removed, plan[..k], plan[k]);
        assert plan[..k + 1] == plan[..k] + [plan[k]];
      }
      assert plan[..|ids|] == plan;
    }

    /**
      applyGroupsToEntity: compares the entity's current rows with the
      requested groups, persists a row for each requested group not assigned
      yet, and removes the rows the action drops.
    */
    method ApplyGroupsToEntity(e: nat, groups: set<nat>, action: Action)
      requires em.Valid()
      modifies em
      ensures em.Valid() && em.rows == old(em.rows)
      ensures Scheduled(old(em.persisted), old(em.removed),
        EntityChanges(old(em.rows), if isUser then GroupUserTable else GroupResourceTable, e, groups, action))
    {
      var t := if isUser then GroupUserTable else GroupResourceTable;
      var current := em.FindBy(t, e);
      if action == Append || action == Replace {
        var toAssign := GroupsToAssign(current, groups);
        PersistGroups(t, e, toAssign);
        assert AddedRows(em.rows, t, e, toAssign) == AddedRows(em.rows, t, e, groups) by {
          forall x ensures x in AddedRows(em.rows, t, e, toAssign) <==> x in AddedRows(em.rows, t, e, groups) {
            if x in AddedRows(em.rows, t, e, groups) {
              assert x !in current;
            }
          }
        }
        if action == Replace {
          // Unassign the groups that are not to be applied.
          RemoveRows(current, groups, true);
          assert (set x | x in current && (x.group in groups) != true) == SelectedRows(em.rows, t, e, groups, true);
        }
      } else {
        RemoveRows(current, groups, false);
        assert (set x | x in current && (x.group in groups) != false) == SelectedRows(em.rows, t, e, groups, false);
      }
    }

    /** The requested groups that none of the current rows holds already. */
    method GroupsToAssign(current: set<Row>, groups: set<nat>) returns (toAssign: set<nat>)
      ensures forall g :: g in toAssign <==> g in groups && forall x :: x in current ==> x.group != g
    {
      toAssign := groups;
      var rest := current;
      while rest != {}
        invariant rest <= current
        invariant forall g :: g in toAssign <==> g in groups && forall x :: x in current - rest ==> x.group != g
        decreases rest
      {
        var x :| x in rest;
        if x.group in groups {
          toAssign := toAssign - {x.group};
        }
        rest := rest - {x};
      }
    }

    /** Persists a row for each group, unless the pair is stored already. */
    method PersistGroups(t: Table, e: nat, toAssign: set<nat>)
      requires em.Valid()
      modifies em
      ensures em.Valid() && em.rows == old(em.rows) && em.removed == old(em.removed)
      ensures em.persisted == old(em.persisted) + AddedRows(em.rows, t, e, toAssign)
    {
      var pending := toAssign;
      while pending != {}
        invariant pending <= toAssign
        invariant em.Valid() && em.rows == old(em.rows) && em.removed == old(em.removed)
        invariant forall x :: x in em.persisted <==>
          x in old(em.persisted) || (Targets(x, t, e) && x.group in toAssign - pending && x !in em.rows)
        decreases pending
      {
        var g :| g in pending;
        // This check avoids a duplicate pair.
        var present := em.Exists(t, g, e);
        if !present {
          em.Persist(Row(t, g, e));
        }
        pending := pending - {g};
      }
    }

    /** Removes the rows of `current` whose group is in `groups` (keep false) or is not (keep true). */
    method RemoveRows(current: set<Row>, groups: set<nat>, keep: bool)
      requires em.Valid() && current <= em.rows
      modifies em
      ensures em.Valid() && em.rows == old(em.rows) && em.persisted == old(em.persisted)
      ensures em.removed == old(em.removed) + set x | x in current && (x.group in groups) != keep
    {
      var rest := current;
      while rest != {}
        invariant rest <= current
        invariant em.Valid() && em.rows == old(em.rows) && em.persisted == old(em.persisted)
        invariant forall x :: x in em.removed <==>
          x in old(em.removed) || (x in current - rest && (x.group in groups) != keep)
        decreases rest
      {
        var x :| x in rest;
        if (x.group in groups) != keep {
          em.Remove(x);
        }
        rest := rest - {x};
      }
    }
  }
}
