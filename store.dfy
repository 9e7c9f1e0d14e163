/**
  The two join tables of the module, `group_user` and `group_resource`, and the
  entity manager through which the module changes them.

  Each table has the composite primary key (group_id, user_id) or
  (group_id, resource_id), so its contents are a set of pairs; both tables are
  one set of rows here, tagged by table. The entity manager keeps the flushed
  rows and, until the next flush, the rows scheduled for insertion (persist)
  and for deletion (remove). Every query reads the flushed rows only.
*/
module Store {

  datatype Table = GroupUserTable | GroupResourceTable

  /** One join row: a group assigned to a user (GroupUserTable) or to a resource. */
  datatype Row = Row(table: Table, group: nat, entity: nat)

  /** "replace", "append" or "remove", the three collection actions. */
  datatype Action = Replace | Append | Remove

  /** Whether row x belongs to entity e of table t. */
  predicate Targets(x: Row, t: Table, e: nat)
  {
    x.table == t && x.entity == e
  }

  /** findBy([column => e]): the rows of entity e. */
  function RowsOf(rows: set<Row>, t: Table, e: nat): (r: set<Row>)
    ensures forall x :: x in r <==> x in rows && Targets(x, t, e)
  {
    set x | x in rows && Targets(x, t, e)
  }

  /** The ids of the groups assigned to entity e. */
  function GroupsOf(rows: set<Row>, t: Table, e: nat): (r: set<nat>)
    ensures forall g :: g in r <==> Row(t, g, e) in rows
  {
    set x | x in rows && Targets(x, t, e) :: x.group
  }

  /** The union of the groups of several entities of one table. */
  function GroupsOfAll(rows: set<Row>, t: Table, es: set<nat>): (r: set<nat>)
    ensures forall g :: g in r <==> exists e :: e in es && Row(t, g, e) in rows
  {
    set x | x in rows && x.table == t && x.entity in es :: x.group
  }

  /** Some group links resource r (in group_resource) to user u (in group_user). */
  predicate SharesGroup(rows: set<Row>, r: nat, u: nat)
  {
    exists x :: x in rows && Targets(x, GroupResourceTable, r) && Row(GroupUserTable, x.group, u) in rows
  }

  /** Two resources with the same groups share a group with the same users. */
  lemma SameGroupsSameSharing(rows: set<Row>, a: nat, b: nat, u: nat)
    requires GroupsOf(rows, GroupResourceTable, a) == GroupsOf(rows, GroupResourceTable, b)
    ensures SharesGroup(rows, a, u) <==> SharesGroup(rows, b, u)
  {
    if SharesGroup(rows, a, u) {
      var x :| x in rows && Targets(x, GroupResourceTable, a) && Row(GroupUserTable, x.group, u) in rows;
      assert x == Row(GroupResourceTable, x.group, a);
      assert x.group in GroupsOf(rows, GroupResourceTable, b);
    }
    if SharesGroup(rows, b, u) {
      var x :| x in rows && Targets(x, GroupResourceTable, b) && Row(GroupUserTable, x.group, u) in rows;
      assert x == Row(GroupResourceTable, x.group, b);
      assert x.group in GroupsOf(rows, GroupResourceTable, a);
    }
  }

  /** More join rows never unlink a resource from a user. */
  lemma SharesGroupMonotone(rows: set<Row>, more: set<Row>, r: nat, u: nat)
    requires rows <= more && SharesGroup(rows, r, u)
    ensures SharesGroup(more, r, u)
  {
    var x :| x in rows && Targets(x, GroupResourceTable, r) && Row(GroupUserTable, x.group, u) in rows;
    assert x in more && Row(GroupUserTable, x.group, u) in more;
  }

  /** The rows scheduled for insertion and for deletion. */
  datatype Changes = Changes(adds: set<Row>, dels: set<Row>)

  /** What a flush leaves in the tables. */
  function Commit(rows: set<Row>, c: Changes): set<Row>
  {
    (rows - c.dels) + c.adds
  }

  /** The group set an action promises: the requested set, the union, or the difference. */
  function Expected(current: set<nat>, groups: set<nat>, action: Action): set<nat>
  {
    match action
    case Replace => groups
    case Append => current + groups
    case Remove => current - groups
  }

  /** Rows applyGroupsToEntity persists: the requested groups not assigned yet. */
  function AddedRows(rows: set<Row>, t: Table, e: nat, groups: set<nat>): (r: set<Row>)
    ensures forall x :: x in r <==> Targets(x, t, e) && x.group in groups && x !in rows
  {
    set g | g in groups && Row(t, g, e) !in rows :: Row(t, g, e)
  }

  /** Rows of e whose group is in (keep == false) or not in (keep == true) `groups`. */
  function SelectedRows(rows: set<Row>, t: Table, e: nat, groups: set<nat>, keep: bool): (r: set<Row>)
    ensures forall x :: x in r <==> x in rows && Targets(x, t, e) && (x.group in groups) != keep
  {
    set x | x in rows && Targets(x, t, e) && (x.group in groups) != keep
  }

  /**
    What applyGroupsToEntity schedules for entity e of table t: for "replace" and
    "append" the requested groups the entity does not have yet; for "replace"
    also the removal of the rows of groups not requested; for "remove" the
    removal of the rows of the requested groups.
  */
  function EntityChanges(rows: set<Row>, t: Table, e: nat, groups: set<nat>, action: Action): (c: Changes)
    ensures c.adds !! rows
    ensures c.dels <= rows
    ensures forall x :: x in c.adds || x in c.dels ==> Targets(x, t, e)
    ensures action == Remove ==> c.adds == {}
    ensures action == Append ==> c.dels == {}
  {
    match action
    case Replace => Changes(AddedRows(rows, t, e, groups), SelectedRows(rows, t, e, groups, true))
    case Append => Changes(AddedRows(rows, t, e, groups), {})
    case Remove => Changes({}, SelectedRows(rows, t, e, groups, false))
  }

  /**
    After a flush, entity e holds exactly the group set the action promises
    (the requested set, the union, the difference), and no row of any other
    entity has changed. "append" removes nothing; "remove" adds nothing.
  */
  lemma EntityChangesCorrect(rows: set<Row>, t: Table, e: nat, groups: set<nat>, action: Action)
    ensures var after := Commit(rows, EntityChanges(rows, t, e, groups, action));
      && GroupsOf(after, t, e) == Expected(GroupsOf(rows, t, e), groups, action)
      && (forall x :: !Targets(x, t, e) ==> (x in after <==> x in rows))
      && (action == Append ==> rows <= after)
      && (action == Remove ==> after <= rows)
  {
    var after := Commit(rows, EntityChanges(rows, t, e, groups, action));
    var want := Expected(GroupsOf(rows, t, e), groups, action);
    forall g ensures g in GroupsOf(after, t, e) <==> g in want {
      assert g in GroupsOf(after, t, e) <==> Row(t, g, e) in after;
    }
  }

  /** One call of applyGroupsToEntity: the entity, the requested group ids and the action. */
  datatype Step = Step(table: Table, entity: nat, groups: set<nat>, action: Action)

  function StepChanges(rows: set<Row>, s: Step): Changes
  {
    EntityChanges(rows, s.table, s.entity, s.groups, s.action)
  }

  /** Whether some step of the plan works on entity e of table t. */
  predicate Targeted(plan: seq<Step>, t: Table, e: nat)
  {
    exists i :: 0 <= i < |plan| && plan[i].table == t && plan[i].entity == e
  }

  /** The changes of a sequence of calls made before one flush, all reading the same rows. */
  function PlanChanges(rows: set<Row>, plan: seq<Step>): Changes
    decreases |plan|
  {
    if |plan| == 0 then Changes({}, {})
    else
      var p := PlanChanges(rows, plan[..|plan| - 1]);
      var s := StepChanges(rows, plan[|plan| - 1]);
      Changes(p.adds + s.adds, p.dels + s.dels)
  }

  /**
    A plan inserts only pairs not stored yet, deletes only stored rows, and
    touches only the entities its steps work on.
  */
  lemma {:induction false} PlanChangesTargeted(rows: set<Row>, plan: seq<Step>)
    ensures PlanChanges(rows, plan).adds !! rows
    ensures PlanChanges(rows, plan).dels <= rows
    ensures forall x :: x in PlanChanges(rows, plan).adds || x in PlanChanges(rows, plan).dels ==>
      Targeted(plan, x.table, x.entity)
    decreases |plan|
  {
    if |plan| > 0 {
      var p := plan[..|plan| - 1];
      PlanChangesTargeted(rows, p);
      assert forall x: Row :: Targeted(p, x.table, x.entity) ==> Targeted(plan, x.table, x.entity) by {
        forall x: Row | Targeted(p, x.table, x.entity) ensures Targeted(plan, x.table, x.entity) {
          var i :| 0 <= i < |p| && p[i].table == x.table && p[i].entity == x.entity;
          assert plan[i] == p[i];
        }
      }
      assert Targeted(plan, plan[|plan| - 1].table, plan[|plan| - 1].entity);
    }
  }

  /** The changes of two plans run one after the other are the union of their changes. */
  lemma {:induction false} PlanChangesConcat(rows: set<Row>, p: seq<Step>, q: seq<Step>)
    ensures PlanChanges(rows, p + q).adds == PlanChanges(rows, p).adds + PlanChanges(rows, q).adds
    ensures PlanChanges(rows, p + q).dels == PlanChanges(rows, p).dels + PlanChanges(rows, q).dels
    decreases |q|
  {
    if |q| == 0 {
      assert p + q == p;
    } else {
      var q' := q[..|q| - 1];
      assert (p + q)[..|p + q| - 1] == p + q';
      assert (p + q)[|p + q| - 1] == q[|q| - 1];
      PlanChangesConcat(rows, p, q');
    }
  }

  /** Adding one step to a plan adds that step's changes. */
  lemma PlanChangesSnoc(rows: set<Row>, p: seq<Step>, s: Step)
    ensures PlanChanges(rows, p + [s]).adds == PlanChanges(rows, p).adds + StepChanges(rows, s).adds
    ensures PlanChanges(rows, p + [s]).dels == PlanChanges(rows, p).dels + StepChanges(rows, s).dels
  {
    assert (p + [s])[..|p|] == p;
  }

  /** Pending sets holding a plan's changes, grown by one more step's changes, hold the longer plan's. */
  lemma ScheduleStep(rows: set<Row>, p0: set<Row>, r0: set<Row>, p1: set<Row>, r1: set<Row>,
                     p2: set<Row>, r2: set<Row>, plan: seq<Step>, s: Step)
    requires p1 == p0 + PlanChanges(rows, plan).adds && r1 == r0 + PlanChanges(rows, plan).dels
    requires p2 == p1 + StepChanges(rows, s).adds && r2 == r1 + StepChanges(rows, s).dels
    ensures p2 == p0 + PlanChanges(rows, plan + [s]).adds && r2 == r0 + PlanChanges(rows, plan + [s]).dels
  {
    PlanChangesSnoc(rows, plan, s);
  }

  /** The same, grown by the changes of a whole plan. */
  lemma ScheduleConcat(rows: set<Row>, p0: set<Row>, r0: set<Row>, p1: set<Row>, r1: set<Row>,
                       p2: set<Row>, r2: set<Row>, plan: seq<Step>, next: seq<Step>)
    requires p1 == p0 + PlanChanges(rows, plan).adds && r1 == r0 + PlanChanges(rows, plan).dels
    requires p2 == p1 + PlanChanges(rows, next).adds && r2 == r1 + PlanChanges(rows, next).dels
    ensures p2 == p0 + PlanChanges(rows, plan + next).adds && r2 == r0 + PlanChanges(rows, plan + next).dels
  {
    PlanChangesConcat(rows, plan, next);
  }

  /** No two steps work on the same entity of the same table. */
  predicate DistinctTargets(plan: seq<Step>)
  {
    forall i, j :: 0 <= i < j < |plan| ==>
      plan[i].table != plan[j].table || plan[i].entity != plan[j].entity
  }

  /**
    When every step works on its own entity, a flush leaves each row of a
    step's entity as that step alone would, and every row no step works on
    as it was.
  */
  lemma {:induction false} CommitPlanRows(rows: set<Row>, plan: seq<Step>, x: Row)
    requires DistinctTargets(plan)
    ensures forall i :: 0 <= i < |plan| && Targets(x, plan[i].table, plan[i].entity) ==>
      (x in Commit(rows, PlanChanges(rows, plan)) <==> x in Commit(rows, StepChanges(rows, plan[i])))
    ensures !Targeted(plan, x.table, x.entity) ==>
      (x in Commit(rows, PlanChanges(rows, plan)) <==> x in rows)
    decreases |plan|
  {
    if |plan| > 0 {
      var n := |plan| - 1;
      var p := plan[..n];
      var s := plan[n];
      assert DistinctTargets(p);
      CommitPlanRows(rows, p, x);
      PlanChangesTargeted(rows, p);
      var cp := PlanChanges(rows, p);
      var cs := StepChanges(rows, s);
      if Targets(x, s.table, s.entity) {
        assert !Targeted(p, x.table, x.entity);
        assert x !in cp.adds && x !in cp.dels;
      } else {
        assert x !in cs.adds && x !in cs.dels;
        assert Targeted(p, x.table, x.entity) ==> Targeted(plan, x.table, x.entity);
        forall i | 0 <= i < n && Targets(x, plan[i].table, plan[i].entity)
          ensures x in Commit(rows, PlanChanges(rows, plan)) <==> x in Commit(rows, StepChanges(rows, plan[i]))
        {
          assert p[i] == plan[i];
        }
      }
    }
  }

  /**
    After the flush of a plan whose steps work on distinct entities, every
    step's entity holds exactly the group set its action promises, and every
    other entity keeps its rows.
  */
  lemma CommitPlan(rows: set<Row>, plan: seq<Step>)
    requires DistinctTargets(plan)
    ensures var after := Commit(rows, PlanChanges(rows, plan));
      forall i :: 0 <= i < |plan| ==>
        GroupsOf(after, plan[i].table, plan[i].entity)
          == Expected(GroupsOf(rows, plan[i].table, plan[i].entity), plan[i].groups, plan[i].action)
    ensures var after := Commit(rows, PlanChanges(rows, plan));
      forall x: Row :: !Targeted(plan, x.table, x.entity) ==> (x in after <==> x in rows)
  {
    var after := Commit(rows, PlanChanges(rows, plan));
    forall i | 0 <= i < |plan|
      ensures GroupsOf(after, plan[i].table, plan[i].entity)
        == Expected(GroupsOf(rows, plan[i].table, plan[i].entity), plan[i].groups, plan[i].action)
    {
      var s := plan[i];
      EntityChangesCorrect(rows, s.table, s.entity, s.groups, s.action);
      forall g ensures g in GroupsOf(after, s.table, s.entity) <==> Row(s.table, g, s.entity) in Commit(rows, StepChanges(rows, s)) {
        CommitPlanRows(rows, plan, Row(s.table, g, s.entity));
      }
    }
    forall x: Row | !Targeted(plan, x.table, x.entity) ensures x in after <==> x in rows {
      CommitPlanRows(rows, plan, x);
    }
  }

  /**
    The Doctrine entity manager, reduced to the join rows: `rows` is what the
    database holds, `persisted` and `removed` what the next flush will insert
    and delete.
  */
  class EntityManager {
    var rows: set<Row>
    var persisted: set<Row>
    var removed: set<Row>

    /** A scheduled insertion never duplicates a stored pair; a scheduled deletion is of a stored row. */
    ghost predicate Valid()
      reads this
    {
      persisted !! rows && removed <= rows
    }

    ghost function Pending(): Changes
      reads this
    {
      Changes(persisted, removed)
    }

    constructor (initial: set<Row>)
      ensures Valid() && rows == initial && persisted == {} && removed == {}
    {
      rows, persisted, removed := initial, {}, {};
    }

    /** findBy([column => e]) on a join table. */
    method FindBy(t: Table, e: nat) returns (found: set<Row>)
      ensures forall x :: x in found <==> x in rows && Targets(x, t, e)
    {
      found := RowsOf(rows, t, e);
    }

    /** findBy(['group' => g, column => e]) is not empty. */
    method Exists(t: Table, g: nat, e: nat) returns (b: bool)
      ensures b <==> Row(t, g, e) in rows
    {
      b := Row(t, g, e) in rows;
    }

    method Persist(x: Row)
      requires Valid() && x !in rows
      modifies this
      ensures Valid()
      ensures rows == old(rows) && removed == old(removed) && persisted == old(persisted) + {x}
    {
      persisted := persisted + {x};
    }

    method Remove(x: Row)
      requires Valid() && x in rows
      modifies this
      ensures Valid()
      ensures rows == old(rows) && persisted == old(persisted) && removed == old(removed) + {x}
    {
      removed := removed + {x};
    }

    method Flush()
      requires Valid()
      modifies this
      ensures Valid()
      ensures rows == Commit(old(rows), old(Pending())) && persisted == {} && removed == {}
    {
      rows := (rows - removed) + persisted;
      persisted, removed := {}, {};
    }
  }
}
