/**
  The module class of the Group module: the two recursion settings and what
  they decide, the event handlers that call the applyGroups plugin after a
  resource is created, updated, batch updated or deleted, the search filters
  on groups and the visibility filter on media.

  The host's query builder is a QueryBuilder holding the conditions added to
  its WHERE clause; Holds gives the rows a condition lets through, over a
  World that holds the join tables, the groups table and the few resource
  columns the conditions read.
*/
module GroupModule {
  import opened Php
  import opened Store
  import opened ApplyGroupsPlugin
  import GroupAdapter

  /** The settings group_recursive_item_sets and group_recursive_items. */
  datatype Config = Config(recursiveItemSets: bool, recursiveItems: bool)

  /** The kind a resource receives groups from: item sets for items, items for media. */
  function Parent(kind: EntityKind): Option<EntityKind>
  {
    match kind
    case ItemKind => Some(ItemSetKind)
    case MediaKind => Some(ItemKind)
    case _ => None
  }

  /** isRecursive: whether the groups of a resource are applied to the resources below it. */
  function IsRecursive(cfg: Config, kind: EntityKind): (r: bool)
    ensures r ==> exists child :: Parent(child) == Some(kind)
  {
    match kind
    case ItemSetKind =>
      assert Parent(ItemKind) == Some(ItemSetKind);
      cfg.recursiveItemSets
    case ItemKind =>
      assert Parent(MediaKind) == Some(ItemKind);
      cfg.recursiveItems
    case _ => false
  }

  /** takeGroupsFromAbove: a resource takes its groups from above exactly when its parent kind is recursive. */
  function TakeGroupsFromAbove(cfg: Config, kind: EntityKind): (r: bool)
    ensures r <==> Parent(kind).Some? && IsRecursive(cfg, Parent(kind).value)
  {
    match kind
    case ItemKind => cfg.recursiveItemSets
    case MediaKind => cfg.recursiveItems
    case _ => false
  }

  /** The two switches kind by kind. */
  lemma SwitchesByKind(cfg: Config)
    ensures !TakeGroupsFromAbove(cfg, ItemSetKind) && !TakeGroupsFromAbove(cfg, UserKind)
    ensures TakeGroupsFromAbove(cfg, ItemKind) == cfg.recursiveItemSets
    ensures TakeGroupsFromAbove(cfg, MediaKind) == cfg.recursiveItems
    ensures IsRecursive(cfg, ItemSetKind) == cfg.recursiveItemSets
    ensures IsRecursive(cfg, ItemKind) == cfg.recursiveItems
    ensures !IsRecursive(cfg, MediaKind) && !IsRecursive(cfg, UserKind)
  {
  }

  /**
    Whether the groups of a kind are recomputed when a resource above is
    saved: items from their item sets, media from their item, and media too
    when items take theirs from item sets, since the item's groups are copied
    to its media.
  */
  predicate Overwritten(cfg: Config, kind: EntityKind)
  {
    TakeGroupsFromAbove(cfg, kind) || (Parent(kind).Some? && TakeGroupsFromAbove(cfg, Parent(kind).value))
  }

  /**
    attachListeners: the admin controllers whose resource form gets the group
    element. The item set form always has it; a kind has it exactly when its
    groups are not recomputed from above.
  */
  function FormControllers(cfg: Config): (r: seq<EntityKind>)
    ensures |r| > 0 && r[0] == ItemSetKind
    ensures forall i, j :: 0 <= i < j < |r| ==> r[i] != r[j]
    ensures forall k :: k in r <==> k != UserKind && !Overwritten(cfg, k)
  {
    if cfg.recursiveItemSets then [ItemSetKind]
    else if cfg.recursiveItems then [ItemSetKind, ItemKind]
    else [ItemSetKind, ItemKind, MediaKind]
  }

  // ---------------------------------------------------------------------------
  // cleanStrings

  /** A query value: a string of comma-separated values, or a list of strings. */
  datatype Strings = Text(text: string) | List(values: seq<string>)

  /** The values before cleaning: the pieces between the commas, or the list itself. */
  function Parts(input: Strings): seq<string>
  {
    match input
    case Text(s) => Explode(",", s)
    case List(vs) => vs
  }

  /** array_filter without a callback: the values PHP does not count as false, in order. */
  function DropFalsy(vs: seq<string>): (r: seq<string>)
    ensures |r| <= |vs|
    ensures forall v :: v in r <==> v in vs && !IsFalsy(v)
  {
    if |vs| == 0 then []
    else
      assert forall v :: v in vs <==> v == vs[0] || v in vs[1..];
      (if IsFalsy(vs[0]) then [] else [vs[0]]) + DropFalsy(vs[1..])
  }

  /** A list with no false value is kept whole. */
  lemma {:induction false} DropFalsyKeeps(vs: seq<string>)
    requires forall v :: v in vs ==> !IsFalsy(v)
    ensures DropFalsy(vs) == vs
  {
    if |vs| > 0 {
      assert vs[0] in vs;
      assert forall v :: v in vs[1..] ==> v in vs;
      DropFalsyKeeps(vs[1..]);
    }
  }

  /** No member of a list of trimmed values begins or ends with a trimmed character. */
  lemma TrimEachEnds(parts: seq<string>, cs: set<char>)
    ensures forall v :: v in TrimEach(parts, cs) && v != [] ==> v[0] !in cs && v[|v| - 1] !in cs
  {
    forall v | v in TrimEach(parts, cs) && v != [] ensures v[0] !in cs && v[|v| - 1] !in cs {
      TrimEachOf(parts, cs, v);
    }
  }

  /**
    cleanStrings: the comma-separated pieces of a string, or the members of a
    list, trimmed, without those PHP counts as false ("" and "0"). Every
    value left is true and has no blank at either end.
  */
  function CleanStrings(input: Strings): (r: seq<string>)
    ensures forall v :: v in r ==> !IsFalsy(v) && v[0] !in DefaultTrim && v[|v| - 1] !in DefaultTrim
  {
    TrimEachEnds(Parts(input), DefaultTrim);
    DropFalsy(TrimEach(Parts(input), DefaultTrim))
  }

  /** The values of cleanStrings are exactly the true trims of the parts. */
  lemma CleanStringsOf(input: Strings, v: string)
    ensures v in CleanStrings(input) <==>
      !IsFalsy(v) && exists k :: 0 <= k < |Parts(input)| && v == Trim(Parts(input)[k], DefaultTrim)
  {
    TrimEachOf(Parts(input), DefaultTrim, v);
  }

  /** Cleaning a cleaned list changes nothing. */
  lemma CleanStringsIdempotent(input: Strings)
    ensures CleanStrings(List(CleanStrings(input))) == CleanStrings(input)
  {
    var r := CleanStrings(input);
    var t := TrimEach(r, DefaultTrim);
    assert t == r by {
      forall k | 0 <= k < |r| ensures t[k] == r[k] {
        var v := r[k];
        assert v in r;
        assert TrimLeft(v, DefaultTrim) == v;
        assert TrimRight(v, DefaultTrim) == v;
      }
    }
    DropFalsyKeeps(r);
  }

  /** A cleaned value never ends with a new line, so PCRE's `~^\d+$~` holds of it only when it is all digits. */
  lemma CleanIdIsDigits(input: Strings, v: string)
    requires v in CleanStrings(input) && IsIdString(v)
    ensures IsDigits(v)
  {
  }

  /** `empty($query['group'])`: absent, "", "0" and the empty list are empty. */
  predicate IsEmptyValue(input: Strings)
  {
    match input
    case Text(s) => IsFalsy(s)
    case List(vs) => vs == []
  }

  // ---------------------------------------------------------------------------
  // The query builder and the meaning of its conditions

  /** What the conditions read: the join tables, the groups table and a few resource columns. */
  datatype World = World(
    rows: set<Row>,
    groups: seq<Group>,             // the groups table
    itemOfMedia: nat -> nat,        // media.item_id
    isPublic: nat -> bool,          // resource.is_public
    owner: nat -> Option<nat>)      // resource.owner_id, null when no owner

  /** A condition the module adds to a search. */
  datatype Condition =
    | JoinsGroups(table: Table)                         // has_groups: an inner join on the join table
    | HasGroup(table: Table, value: string, byId: bool) // one listed group of the search on `group`
    | MediaVisibleTo(viewer: Option<nat>)               // filterMedia

  /** Whether a listed value designates a group: by id when the first value is an id, by name otherwise. */
  predicate Designates(v: string, byId: bool, g: Group)
  {
    if byId then IsIdString(v) && IdValue(v) == g.id else v == g.name
  }

  /** The media visibility rule: the media's item is public, or the viewer owns it or shares a group with it. */
  predicate MediaVisible(w: World, viewer: Option<nat>, m: nat)
  {
    var item := w.itemOfMedia(m);
    w.isPublic(item) || (viewer.Some? && (w.owner(item) == viewer || SharesGroup(w.rows, item, viewer.value)))
  }

  /** Whether a condition lets entity e through. */
  predicate Holds(w: World, c: Condition, e: nat)
  {
    match c
    case JoinsGroups(t) => exists x :: x in w.rows && Targets(x, t, e)
    case HasGroup(t, v, byId) => exists g :: g in w.groups && Designates(v, byId, g) && Row(t, g.id, e) in w.rows
    case MediaVisibleTo(viewer) => MediaVisible(w, viewer, e)
  }

  /** Whether all conditions let entity e through. */
  predicate Selected(w: World, conds: seq<Condition>, e: nat)
  {
    forall i :: 0 <= i < |conds| ==> Holds(w, conds[i], e)
  }

  lemma SelectedConcat(w: World, a: seq<Condition>, b: seq<Condition>, e: nat)
    ensures Selected(w, a + b, e) <==> Selected(w, a, e) && Selected(w, b, e)
  {
    if Selected(w, a, e) && Selected(w, b, e) {
      forall i | 0 <= i < |a + b| ensures Holds(w, (a + b)[i], e) {
        if i >= |a| {
          assert (a + b)[i] == b[i - |a|];
        }
      }
    }
    if Selected(w, a + b, e) {
      forall i | 0 <= i < |a| ensures Holds(w, a[i], e) {
        assert (a + b)[i] == a[i];
      }
      forall i | 0 <= i < |b| ensures Holds(w, b[i], e) {
        assert (a + b)[|a| + i] == b[i];
      }
    }
  }

  /** The host's query builder, reduced to the conditions of its WHERE clause. */
  class QueryBuilder {
    var conditions: seq<Condition>

    constructor ()
      ensures conditions == []
    {
      conditions := [];
    }

    method AndWhere(c: Condition)
      modifies this
      ensures conditions == old(conditions) + [c]
    {
      conditions := conditions + [c];
    }
  }

  // ---------------------------------------------------------------------------
  // searchQuery

  /** The join table searched: group_user for users, group_resource for resources. */
  function SearchTable(isUsers: bool): Table
  {
    if isUsers then GroupUserTable else GroupResourceTable
  }

  /** One condition per listed group. */
  function GroupConditions(t: Table, groups: seq<string>, byId: bool): (r: seq<Condition>)
    ensures |r| == |groups|
    ensures forall k :: 0 <= k < |groups| ==> r[k] == HasGroup(t, groups[k], byId)
  {
    seq(|groups|, k requires 0 <= k < |groups| => HasGroup(t, groups[k], byId))
  }

  /** The condition for has_groups. */
  function HasGroupsConditions(t: Table, hasGroups: bool): seq<Condition>
  {
    if hasGroups then [JoinsGroups(t)] else []
  }

  /** The conditions for group: none for an empty value, else one per cleaned value, all by id or all by name. */
  function GroupFilterConditions(t: Table, group: Strings): seq<Condition>
  {
    if IsEmptyValue(group) then []
    else
      var groups := CleanStrings(group);
      if groups == [] then [] else GroupConditions(t, groups, IsIdString(groups[0]))
  }

  /** The conditions searchQuery adds for has_groups and for group. */
  function SearchConditions(isUsers: bool, hasGroups: bool, group: Strings): seq<Condition>
  {
    HasGroupsConditions(SearchTable(isUsers), hasGroups) + GroupFilterConditions(SearchTable(isUsers), group)
  }

  /** has_groups keeps the entities that have at least one group. */
  lemma HasGroupsMeaning(w: World, t: Table, hasGroups: bool, e: nat)
    ensures Selected(w, HasGroupsConditions(t, hasGroups), e) <==> (hasGroups ==> GroupsOf(w.rows, t, e) != {})
  {
    if hasGroups {
      var conds := HasGroupsConditions(t, hasGroups);
      assert |conds| == 1 && conds[0] == JoinsGroups(t);
      if Holds(w, JoinsGroups(t), e) {
        forall i | 0 <= i < |conds| ensures Holds(w, conds[i], e) {
          assert i == 0;
        }
      }
      if Holds(w, JoinsGroups(t), e) {
        var x :| x in w.rows && Targets(x, t, e);
        assert x.group in GroupsOf(w.rows, t, e);
      }
      if GroupsOf(w.rows, t, e) != {} {
        var g :| g in GroupsOf(w.rows, t, e);
        assert Targets(Row(t, g, e), t, e);
      }
    }
  }

  /** One condition per value keeps the entities that have a group designated by each value. */
  lemma GroupConditionsMeaning(w: World, t: Table, groups: seq<string>, byId: bool, e: nat)
    ensures Selected(w, GroupConditions(t, groups, byId), e) <==>
      forall v :: v in groups ==> exists g :: g in w.groups && Designates(v, byId, g) && g.id in GroupsOf(w.rows, t, e)
  {
    var conds := GroupConditions(t, groups, byId);
    if Selected(w, conds, e) {
      forall v | v in groups
        ensures exists g :: g in w.groups && Designates(v, byId, g) && g.id in GroupsOf(w.rows, t, e)
      {
        var k :| 0 <= k < |groups| && groups[k] == v;
        assert Holds(w, conds[k], e);
      }
    }
    if forall v :: v in groups ==> exists g :: g in w.groups && Designates(v, byId, g) && g.id in GroupsOf(w.rows, t, e) {
      forall k | 0 <= k < |conds| ensures Holds(w, conds[k], e) {
        assert groups[k] in groups;
      }
    }
  }

  /**
    searchQuery: with has_groups, only entities with some group; with group,
    only the entities that have ALL the listed groups. Whether the values are
    ids or names is decided by the first one alone.
  */
  lemma SearchConditionsMeaning(w: World, isUsers: bool, hasGroups: bool, group: Strings, e: nat)
    ensures var t := SearchTable(isUsers);
      var groups := CleanStrings(group);
      Selected(w, SearchConditions(isUsers, hasGroups, group), e) <==>
        && (hasGroups ==> GroupsOf(w.rows, t, e) != {})
        && (!IsEmptyValue(group) && groups != [] ==>
              forall v :: v in groups ==>
                exists g :: g in w.groups && Designates(v, IsIdString(groups[0]), g) && g.id in GroupsOf(w.rows, t, e))
  {
    var t := SearchTable(isUsers);
    SelectedConcat(w, HasGroupsConditions(t, hasGroups), GroupFilterConditions(t, group), e);
    HasGroupsMeaning(w, t, hasGroups, e);
    var groups := CleanStrings(group);
    if !IsEmptyValue(group) && groups != [] {
      GroupConditionsMeaning(w, t, groups, IsIdString(groups[0]), e);
    }
  }

  /**
    When the first value is an id, a later value that is not one designates
    no group: the search then matches nothing.
  */
  lemma IdSearchWithNameMatchesNothing(w: World, isUsers: bool, hasGroups: bool, group: Strings, e: nat, v: string)
    requires !IsEmptyValue(group) && CleanStrings(group) != [] && IsIdString(CleanStrings(group)[0])
    requires v in CleanStrings(group) && !IsIdString(v)
    ensures !Selected(w, SearchConditions(isUsers, hasGroups, group), e)
  {
    SearchConditionsMeaning(w, isUsers, hasGroups, group, e);
  }

  /**
    When the first value is a name, a later value made of digits is compared
    with names, and no group accepted by validateName has such a name: if
    every stored name was accepted, the search matches nothing.
  */
  lemma NameSearchWithIdMatchesNothing(w: World, isUsers: bool, hasGroups: bool, group: Strings, e: nat, v: string,
                                       stripTags: string -> string)
    requires forall g :: g in w.groups ==> GroupAdapter.NameErrors(Some(g.name), stripTags) == []
    requires !IsEmptyValue(group) && CleanStrings(group) != [] && !IsIdString(CleanStrings(group)[0])
    requires v in CleanStrings(group) && IsIdString(v)
    ensures !Selected(w, SearchConditions(isUsers, hasGroups, group), e)
  {
    SearchConditionsMeaning(w, isUsers, hasGroups, group, e);
    CleanIdIsDigits(group, v);
    forall g | g in w.groups ensures g.name != v {
      if g.name == v {
        GroupAdapter.DigitsNameRejected(v, stripTags);
      }
    }
  }

  lemma ConcatAssoc<T>(a: seq<T>, b: seq<T>, c: seq<T>)
    ensures a + b + c == a + (b + c)
  {
  }

  /** searchQuery: adds the join for has_groups, then one join per listed group. */
  method SearchQuery(qb: QueryBuilder, isUsers: bool, hasGroups: bool, group: Strings)
    modifies qb
    ensures qb.conditions == old(qb.conditions) + SearchConditions(isUsers, hasGroups, group)
  {
    var t := SearchTable(isUsers);
    ghost var before := qb.conditions;
    if hasGroups {
      qb.AndWhere(JoinsGroups(t));
    }
    ghost var middle := qb.conditions;
    assert middle == before + HasGroupsConditions(t, hasGroups);
    AddGroupFilter(qb, t, group);
    ConcatAssoc(before, HasGroupsConditions(t, hasGroups), GroupFilterConditions(t, group));
  }

  /** The search on `group`: nothing for an empty value, else one join per cleaned value. */
  method AddGroupFilter(qb: QueryBuilder, t: Table, group: Strings)
    modifies qb
    ensures qb.conditions == old(qb.conditions) + GroupFilterConditions(t, group)
  {
    if IsEmptyValue(group) {
      assert old(qb.conditions) + [] == qb.conditions;
      return;
    }
    var groups := CleanStrings(group);
    if groups == [] {
      assert old(qb.conditions) + [] == qb.conditions;
      return;
    }
    // All the groups ("and"): the first value decides between ids and names.
    AddGroupConditions(qb, t, groups, IsIdString(groups[0]));
  }

  /** The loop of searchQuery over the listed groups ("and"): one join per group. */
  method AddGroupConditions(qb: QueryBuilder, t: Table, groups: seq<string>, isId: bool)
    modifies qb
    ensures qb.conditions == old(qb.conditions) + GroupConditions(t, groups, isId)
  {
    for i := 0 to |groups|
      invariant qb.conditions == old(qb.conditions) + GroupConditions(t, groups[..i], isId)
    {
      qb.AndWhere(HasGroup(t, groups[i], isId));
      assert GroupConditions(t, groups[..i + 1], isId) == GroupConditions(t, groups[..i], isId) + [HasGroup(t, groups[i], isId)];
    }
    assert groups[..|groups|] == groups;
  }

  // ---------------------------------------------------------------------------
  // filterMedia

  /** filterMedia: nothing for a viewer who may view all, else the media visibility rule. */
  method FilterMedia(qb: QueryBuilder, viewAll: bool, identity: Option<nat>)
    modifies qb
    ensures qb.conditions == old(qb.conditions) + (if viewAll then [] else [MediaVisibleTo(identity)])
  {
    if viewAll {
      assert old(qb.conditions) + [] == qb.conditions;
      return;
    }
    qb.AndWhere(MediaVisibleTo(identity));
  }

  /**
    After filterMedia a media is selected exactly when it was before and the
    viewer may view all, or its item is public, or the viewer is logged in
    and owns the item or shares a group with it.
  */
  lemma FilterMediaMeaning(w: World, conds: seq<Condition>, viewAll: bool, identity: Option<nat>, m: nat)
    ensures Selected(w, conds + (if viewAll then [] else [MediaVisibleTo(identity)]), m) <==>
      Selected(w, conds, m) &&
      (viewAll || w.isPublic(w.itemOfMedia(m))
        || (identity.Some? && (w.owner(w.itemOfMedia(m)) == identity
                               || SharesGroup(w.rows, w.itemOfMedia(m), identity.value))))
  {
    var extra := if viewAll then [] else [MediaVisibleTo(identity)];
    SelectedConcat(w, conds, extra, m);
    if !viewAll {
      assert Selected(w, extra, m) <==> Holds(w, extra[0], m);
    }
  }

  /**
    A media whose groups are its item's, as propagation leaves them, shares a
    group with a user exactly when its item does: filterMedia's group clause
    on the item then agrees with the resource filter's on the media.
  */
  lemma PropagatedMediaSharesAsItem(c: Catalog, rows: set<Row>, item: nat, groups: set<nat>, m: nat, u: nat)
    requires item !in c.mediaOf(item)
    requires forall i, j :: 0 <= i < j < |c.mediaOf(item)| ==> c.mediaOf(item)[i] != c.mediaOf(item)[j]
    requires m in c.mediaOf(item)
    ensures var after := Commit(rows, PlanChanges(rows, ItemAndMediaSteps(c, item, groups)));
      SharesGroup(after, m, u) <==> SharesGroup(after, item, u)
  {
    var after := Commit(rows, PlanChanges(rows, ItemAndMediaSteps(c, item, groups)));
    ItemAndMediaFlushed(c, rows, item, groups, item);
    ItemAndMediaFlushed(c, rows, item, groups, m);
    SameGroupsSameSharing(after, m, item, u);
  }

  // ---------------------------------------------------------------------------
  // The event handlers

  /** What a handler asks the applyGroups plugin to do. */
  datatype Call = Call(groups: seq<GroupRef>, action: Action, above: bool, recursive: bool)

  /** checkAcl: the privilege on the join entity of the resource's kind. */
  predicate CheckAcl(acl: (Table, Privilege) -> bool, kind: EntityKind, privilege: Privilege)
  {
    acl(TableFor(kind), privilege)
  }

  /** handleCreatePost: the submitted groups are appended, when the ACL allows creating and the request holds groups. */
  function CreateCall(acl: (Table, Privilege) -> bool, cfg: Config, kind: EntityKind, hydrate: bool,
                      submitted: seq<GroupRef>): (call: Option<Call>)
    ensures call.Some? <==> CheckAcl(acl, kind, CreatePrivilege) && hydrate
    ensures call.Some? ==> call.value.action == Append && call.value.groups == submitted
    ensures call.Some? ==> call.value.above == TakeGroupsFromAbove(cfg, kind) && call.value.recursive == IsRecursive(cfg, kind)
  {
    if !CheckAcl(acl, kind, CreatePrivilege) then None
    else if !hydrate then None
    else Some(Call(submitted, Append, TakeGroupsFromAbove(cfg, kind), IsRecursive(cfg, kind)))
  }

  /**
    handleUpdatePost: the submitted groups replace the current ones, when the
    ACL allows updating and the request holds the field that matters: the
    item sets for a recursive kind (a partial update), the groups otherwise.
  */
  function UpdateCall(acl: (Table, Privilege) -> bool, cfg: Config, kind: EntityKind,
                      hydrateItemSets: bool, hydrateGroups: bool, submitted: seq<GroupRef>): (call: Option<Call>)
    ensures call.Some? <==>
      (CheckAcl(acl, kind, UpdatePrivilege) && if IsRecursive(cfg, kind) then hydrateItemSets else hydrateGroups)
    ensures call.Some? ==> call.value.action == Replace && call.value.groups == submitted
    ensures call.Some? ==> call.value.above == TakeGroupsFromAbove(cfg, kind) && call.value.recursive == IsRecursive(cfg, kind)
  {
    if !CheckAcl(acl, kind, UpdatePrivilege) then None
    else if IsRecursive(cfg, kind) && !hydrateItemSets then None
    else if !IsRecursive(cfg, kind) && !hydrateGroups then None
    else Some(Call(submitted, Replace, TakeGroupsFromAbove(cfg, kind), IsRecursive(cfg, kind)))
  }

  /**
    handleBatchUpdatePost: remove_groups wins over add_groups; with neither
    there is nothing to do.
  */
  function BatchCall(acl: (Table, Privilege) -> bool, cfg: Config, kind: EntityKind,
                     removeGroups: seq<GroupRef>, addGroups: seq<GroupRef>): (call: Option<Call>)
    ensures call.Some? <==> CheckAcl(acl, kind, UpdatePrivilege) && (removeGroups != [] || addGroups != [])
    ensures call.Some? && removeGroups != [] ==> call.value.action == Remove && call.value.groups == removeGroups
    ensures call.Some? && removeGroups == [] ==> call.value.action == Append && call.value.groups == addGroups
    ensures call.Some? ==> call.value.above == TakeGroupsFromAbove(cfg, kind) && call.value.recursive == IsRecursive(cfg, kind)
  {
    if !CheckAcl(acl, kind, UpdatePrivilege) then None
    else if removeGroups != [] then Some(Call(removeGroups, Remove, TakeGroupsFromAbove(cfg, kind), IsRecursive(cfg, kind)))
    else if addGroups != [] then Some(Call(addGroups, Append, TakeGroupsFromAbove(cfg, kind), IsRecursive(cfg, kind)))
    else None
  }

  /** handleRecursiveDeleteItemSetPre: the groups of the item set are replaced by none, recursively. */
  function DeleteCall(acl: (Table, Privilege) -> bool, hydrate: bool): (call: Option<Call>)
    ensures call.Some? <==> CheckAcl(acl, ItemSetKind, DeletePrivilege) && hydrate
    ensures call.Some? ==> call.value == Call([], Replace, false, true)
  {
    if !CheckAcl(acl, ItemSetKind, DeletePrivilege) then None
    else if !hydrate then None
    else Some(Call([], Replace, false, true))
  }

  /** The plan the plugin carries out for a handler's call, nothing when there is no call. */
  function CallPlan(c: Catalog, acl: (Table, Privilege) -> bool, table: seq<Group>, rows: set<Row>,
                    entity: Entity, call: Option<Call>): seq<Step>
    requires call.Some? ==> SameKind(call.value.groups)
  {
    if call.None? then []
    else InvokePlan(c, acl, table, rows, entity, call.value.groups, call.value.action, call.value.above, call.value.recursive)
  }

  /**
    The plugin checks the privilege of the action a second time. For create
    and update it is the handler's own; a batch "remove" also needs delete and
    a batch "add" create; the recursive delete of an item set also needs
    update. Without the second privilege nothing changes.
  */
  lemma SecondAclCheck(c: Catalog, acl: (Table, Privilege) -> bool, table: seq<Group>, rows: set<Row>,
                       cfg: Config, kind: EntityKind, id: nat, call: Option<Call>)
    requires call.Some? ==> SameKind(call.value.groups)
    ensures call.Some? && !acl(TableFor(kind), PrivilegeFor(call.value.action)) ==>
      CallPlan(c, acl, table, rows, Entity(kind, id), call) == []
    ensures forall b, s :: CreateCall(acl, cfg, kind, b, s).Some? ==> acl(TableFor(kind), PrivilegeFor(CreateCall(acl, cfg, kind, b, s).value.action))
    ensures forall b1, b2, s :: UpdateCall(acl, cfg, kind, b1, b2, s).Some? ==>
      acl(TableFor(kind), PrivilegeFor(UpdateCall(acl, cfg, kind, b1, b2, s).value.action))
  {
  }

  /** Emptying an item set's groups with recursion clears the item set and gives each item those of its other item sets. */
  lemma RecursiveDeletePlan(c: Catalog, acl: (Table, Privilege) -> bool, table: seq<Group>, rows: set<Row>,
                            hydrate: bool, id: nat, item: nat)
    requires DeleteCall(acl, hydrate).Some? && acl(GroupResourceTable, UpdatePrivilege)
    requires item in c.itemsOf(id)
    ensures var plan := CallPlan(c, acl, table, rows, Entity(ItemSetKind, id), DeleteCall(acl, hydrate));
      var others := set s | s in c.itemSetsOf(item) && s != id;
      var want := GroupsOfAll(rows, GroupResourceTable, others);
      && plan[0] == Step(GroupResourceTable, id, {}, Replace)
      && Step(GroupResourceTable, item, want, Replace) in plan
      && forall m :: m in c.mediaOf(item) ==> Step(GroupResourceTable, m, want, Replace) in plan
  {
    var others := set s | s in c.itemSetsOf(item) && s != id;
    assert CheckedGroups([], table) == Found({});
    assert CallPlan(c, acl, table, rows, Entity(ItemSetKind, id), DeleteCall(acl, hydrate))
      == DispatchPlan(c, rows, Entity(ItemSetKind, id), {}, Replace, false, true);
    var below := Expected(GroupsOf(rows, GroupResourceTable, id), {}, Replace);
    ItemSetPropagation(c, rows, id, {}, Replace, item);
    assert below == {};
    GroupsFromItemSetsUnion(c, rows, item, Some(id), below);
    assert (set s | s in c.itemSetsOf(item)) - {id} == others;
    assert GroupsFromItemSets(c, rows, item, Some(id), below) == GroupsOfAll(rows, GroupResourceTable, others);
  }

  /** The plans of a batch: one call of the plugin per resource, in order, all reading the same rows. */
  function BatchPlan(c: Catalog, acl: (Table, Privilege) -> bool, table: seq<Group>, rows: set<Row>,
                     kind: EntityKind, ids: seq<nat>, call: Call): seq<Step>
    requires SameKind(call.groups)
  {
    if |ids| == 0 then []
    else
      BatchPlan(c, acl, table, rows, kind, ids[..|ids| - 1], call)
        + InvokePlan(c, acl, table, rows, Entity(kind, ids[|ids| - 1]), call.groups, call.action, call.above, call.recursive)
  }

  /** What the tables hold after a flush of what was pending and of a plan's changes. */
  function Flushed(rows: set<Row>, persisted: set<Row>, removed: set<Row>, plan: seq<Step>): set<Row>
  {
    Commit(rows, Changes(persisted + PlanChanges(rows, plan).adds, removed + PlanChanges(rows, plan).dels))
  }

  /** Whether the handler's call of the plugin raises the TypeError of checkGroups. */
  predicate CallThrows(acl: (Table, Privilege) -> bool, entity: Entity, call: Option<Call>)
  {
    call.Some? && InvokeThrows(acl, entity, call.value.groups, call.value.action)
  }

  /**
    The handler of one resource: the plugin's call, if any, then a flush. An
    exception of the plugin leaves the handler before the flush.
  */
  method Handle(plugin: ApplyGroups, entity: Entity, call: Option<Call>) returns (thrown: bool)
    requires plugin.em.Valid() && (call.Some? ==> SameKind(call.value.groups))
    modifies plugin, plugin.em
    ensures plugin.em.Valid()
    ensures thrown <==> CallThrows(plugin.acl, entity, call)
    ensures call.None? || thrown ==>
      (plugin.em.rows == old(plugin.em.rows) &&
       plugin.em.persisted == old(plugin.em.persisted) && plugin.em.removed == old(plugin.em.removed))
    ensures call.Some? && !thrown ==>
      (plugin.em.persisted == {} && plugin.em.removed == {} &&
       plugin.em.rows == Flushed(old(plugin.em.rows), old(plugin.em.persisted), old(plugin.em.removed),
         CallPlan(plugin.catalog, plugin.acl, plugin.groupTable, old(plugin.em.rows), entity, call)))
  {
    if call.None? {
      return false;
    }
    var em := plugin.em;
    thrown := plugin.Invoke(entity, call.value.groups, call.value.action, call.value.above, call.value.recursive);
    if thrown {
      assert PlanChanges(em.rows, []) == Changes({}, {});
      return;
    }
    em.Flush();
  }

  method HandleCreatePost(plugin: ApplyGroups, cfg: Config, entity: Entity, hydrate: bool, submitted: seq<GroupRef>)
    requires plugin.em.Valid() && SameKind(submitted)
    modifies plugin, plugin.em
    ensures plugin.em.Valid()
    ensures var call := CreateCall(plugin.acl, cfg, entity.kind, hydrate, submitted);
      plugin.em.rows == if call.None? || CallThrows(plugin.acl, entity, call) then old(plugin.em.rows)
        else Flushed(old(plugin.em.rows), old(plugin.em.persisted), old(plugin.em.removed),
               CallPlan(plugin.catalog, plugin.acl, plugin.groupTable, old(plugin.em.rows), entity, call))
  {
    var call := CreateCall(plugin.acl, cfg, entity.kind, hydrate, submitted);
    var _ := Handle(plugin, entity, call);
  }

  method HandleUpdatePost(plugin: ApplyGroups, cfg: Config, entity: Entity, hydrateItemSets: bool,
                          hydrateGroups: bool, submitted: seq<GroupRef>)
    requires plugin.em.Valid() && SameKind(submitted)
    modifies plugin, plugin.em
    ensures plugin.em.Valid()
    ensures var call := UpdateCall(plugin.acl, cfg, entity.kind, hydrateItemSets, hydrateGroups, submitted);
      plugin.em.rows == if call.None? || CallThrows(plugin.acl, entity, call) then old(plugin.em.rows)
        else Flushed(old(plugin.em.rows), old(plugin.em.persisted), old(plugin.em.removed),
               CallPlan(plugin.catalog, plugin.acl, plugin.groupTable, old(plugin.em.rows), entity, call))
  {
    var call := UpdateCall(plugin.acl, cfg, entity.kind, hydrateItemSets, hydrateGroups, submitted);
    var _ := Handle(plugin, entity, call);
  }

  method HandleRecursiveDeleteItemSetPre(plugin: ApplyGroups, id: nat, hydrate: bool)
    requires plugin.em.Valid()
    modifies plugin, plugin.em
    ensures plugin.em.Valid()
    ensures var call := DeleteCall(plugin.acl, hydrate);
      plugin.em.rows == if call.None? || CallThrows(plugin.acl, Entity(ItemSetKind, id), call) then old(plugin.em.rows)
        else Flushed(old(plugin.em.rows), old(plugin.em.persisted), old(plugin.em.removed),
               CallPlan(plugin.catalog, plugin.acl, plugin.groupTable, old(plugin.em.rows), Entity(ItemSetKind, id), call))
  {
    var call := DeleteCall(plugin.acl, hydrate);
    var _ := Handle(plugin, Entity(ItemSetKind, id), call);
  }

  /**
    handleBatchUpdatePost: the same call of the plugin for every resource of
    the batch, then one flush; every call reads the rows as they were before
    the batch.
  */
  method HandleBatchUpdatePost(plugin: ApplyGroups, cfg: Config, kind: EntityKind, ids: seq<nat>,
                               removeGroups: seq<GroupRef>, addGroups: seq<GroupRef>)
    requires plugin.em.Valid() && SameKind(removeGroups) && SameKind(addGroups)
    modifies plugin, plugin.em
    ensures plugin.em.Valid()
    ensures var call := BatchCall(plugin.acl, cfg, kind, removeGroups, addGroups);
      plugin.em.rows == if call.None? || (|ids| > 0 && CallThrows(plugin.acl, Entity(kind, ids[0]), call))
        then old(plugin.em.rows)
        else Flushed(old(plugin.em.rows), old(plugin.em.persisted), old(plugin.em.removed),
               BatchPlan(plugin.catalog, plugin.acl, plugin.groupTable, old(plugin.em.rows), kind, ids, call.value))
  {
    var call := BatchCall(plugin.acl, cfg, kind, removeGroups, addGroups);
    if call.None? {
      return;
    }
    var em := plugin.em;
    ghost var rows, p0, r0 := em.rows, em.persisted, em.removed;
    for n := 0 to |ids|
      invariant em.Valid() && em.rows == rows
      invariant n > 0 ==> !CallThrows(plugin.acl, Entity(kind, ids[0]), call)
      invariant plugin.Scheduled(p0, r0, PlanChanges(rows,
        BatchPlan(plugin.catalog, plugin.acl, plugin.groupTable, rows, kind, ids[..n], call.value)))
    {
      ghost var before := BatchPlan(plugin.catalog, plugin.acl, plugin.groupTable, rows, kind, ids[..n], call.value);
      ghost var step := InvokePlan(plugin.catalog, plugin.acl, plugin.groupTable, rows, Entity(kind, ids[n]),
        call.value.groups, call.value.action, call.value.above, call.value.recursive);
      ghost var p1, r1 := em.persisted, em.removed;
      var thrown := plugin.Invoke(Entity(kind, ids[n]), call.value.groups, call.value.action, call.value.above, call.value.recursive);
      if thrown {
        // The same call raises for every resource, so this is the first one: nothing was scheduled.
        return;
      }
      ScheduleConcat(rows, p0, r0, p1, r1, em.persisted, em.removed, before, step);
      assert ids[..n + 1][..n] == ids[..n];
    }
    assert ids[..|ids|] == ids;
    em.Flush();
  }
}
