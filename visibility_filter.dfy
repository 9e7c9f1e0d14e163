/**
  The resource visibility filter of the module: Omeka's own SQL filter on
  resources, extended so that a logged-in user also sees the private
  resources that share a group with them.

  The host's rule is given to the model as a predicate on resource ids,
  `parent`, together with whether the host returned an empty constraint (no
  restriction at all, as for an administrator). The constraint is an
  expression; Admits gives the resources it lets through.
*/
module VisibilityFilter {
  import opened Php
  import opened Store

  /** The SQL constraint, as an expression. */
  datatype Constraint =
    | NoConstraint                          // the empty string: nothing is filtered
    | ParentConstraint                      // the host's own constraint
    | OrSharedGroup(base: Constraint, user: nat)  // base OR id IN (resources sharing a group with user)

  /** The resources a constraint lets through, `parent` being the host's rule. */
  predicate Admits(c: Constraint, parent: nat -> bool, rows: set<Row>, r: nat)
  {
    match c
    case NoConstraint => true
    case ParentConstraint => parent(r)
    case OrSharedGroup(base, u) => Admits(base, parent, rows, r) || SharesGroup(rows, r, u)
  }

  /**
    getResourceConstraint: an empty constraint is returned as it is; with an
    identity the group clause is appended with OR; without one the host's
    constraint is returned unchanged.
  */
  function GetResourceConstraint(parentEmpty: bool, identity: Option<nat>): (c: Constraint)
    ensures parentEmpty ==> c == NoConstraint
    ensures !parentEmpty && identity.None? ==> c == ParentConstraint
    ensures !parentEmpty && identity.Some? ==> c.OrSharedGroup? && c.base == ParentConstraint
  {
    if parentEmpty then NoConstraint
    else if identity.Some? then OrSharedGroup(ParentConstraint, identity.value)
    else ParentConstraint
  }

  /**
    A resource is visible under the extended constraint exactly when nothing
    is filtered, or the host's rule admits it, or the viewer is logged in and
    some group is assigned both to the resource and to the viewer.
  */
  lemma ConstraintAdmits(parentEmpty: bool, identity: Option<nat>, parent: nat -> bool, rows: set<Row>, r: nat)
    ensures Admits(GetResourceConstraint(parentEmpty, identity), parent, rows, r) <==>
      parentEmpty || parent(r) || (identity.Some? && SharesGroup(rows, r, identity.value))
  {
    if !parentEmpty && identity.Some? {
      assert Admits(ParentConstraint, parent, rows, r) == parent(r);
    }
  }

  /** The extension only widens: whatever the host's rule admits stays visible. */
  lemma ConstraintWidens(parentEmpty: bool, identity: Option<nat>, parent: nat -> bool, rows: set<Row>, r: nat)
    requires parent(r)
    ensures Admits(GetResourceConstraint(parentEmpty, identity), parent, rows, r)
  {
    ConstraintAdmits(parentEmpty, identity, parent, rows, r);
  }

  /** Without an identity the visible resources are the host's, whatever the groups. */
  lemma AnonymousIgnoresGroups(parentEmpty: bool, parent: nat -> bool, rows: set<Row>, other: set<Row>, r: nat)
    ensures Admits(GetResourceConstraint(parentEmpty, None), parent, rows, r)
      == Admits(GetResourceConstraint(parentEmpty, None), parent, other, r)
  {
    ConstraintAdmits(parentEmpty, None, parent, rows, r);
    ConstraintAdmits(parentEmpty, None, parent, other, r);
  }

  /** Assigning more groups never hides a resource from anyone. */
  lemma MoreRowsMoreVisible(parentEmpty: bool, identity: Option<nat>, parent: nat -> bool,
                            rows: set<Row>, more: set<Row>, r: nat)
    requires rows <= more
    requires Admits(GetResourceConstraint(parentEmpty, identity), parent, rows, r)
    ensures Admits(GetResourceConstraint(parentEmpty, identity), parent, more, r)
  {
    ConstraintAdmits(parentEmpty, identity, parent, rows, r);
    ConstraintAdmits(parentEmpty, identity, parent, more, r);
    if !parentEmpty && !parent(r) {
      SharesGroupMonotone(rows, more, r, identity.value);
    }
  }

  /**
    An "append" of groups to an entity, once flushed, keeps every resource
    that was visible visible: append removes no join row.
  */
  lemma AppendKeepsVisible(parentEmpty: bool, identity: Option<nat>, parent: nat -> bool, rows: set<Row>,
                           t: Table, e: nat, groups: set<nat>, r: nat)
    requires Admits(GetResourceConstraint(parentEmpty, identity), parent, rows, r)
    ensures Admits(GetResourceConstraint(parentEmpty, identity), parent,
      Commit(rows, EntityChanges(rows, t, e, groups, Append)), r)
  {
    EntityChangesCorrect(rows, t, e, groups, Append);
    MoreRowsMoreVisible(parentEmpty, identity, parent, rows, Commit(rows, EntityChanges(rows, t, e, groups, Append)), r);
  }
}
