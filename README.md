# Omeka S Group module: a verified model of its group-assignment core

This project models the part of the Omeka S "Group" module that decides which
groups users and resources (item sets, items, media) belong to, and who may
see what because of those groups:

- the `applyGroups` controller plugin, which assigns groups to one entity with
  the collection actions "replace", "append" and "remove". It can also carry
  groups down from item sets to items, and from items to media.
  The join tables `group_user` and `group_resource` are modelled as a set of
  rows. Doctrine's entity manager is a class with the flushed rows plus the
  pending insertions and deletions (`store.dfy`, `apply_groups.dfy`);
- the module's event handlers, which call the plugin after a resource is
  created, updated, batch updated or deleted. Also in the module: the two
  recursion settings, the search filters `has_groups` and `group`, the media
  visibility filter and the choice of admin forms (`module.dfy`);
- the SQL filter that lets a logged-in user see private resources sharing a
  group with them (`visibility_filter.dfy`);
- the group API adapter: name validation with its two sanitisers, hydration,
  uniqueness of names and the sort alias (`group_adapter.dfy`);
- the CSV import mapping of groups (`group_mapping.dfy`);
- the few PHP library functions these rely on: `trim`, `explode`, `implode`,
  `preg_replace` on a character class, `preg_match('~^\d+$~')`, `strtolower`,
  `array_filter` (`php.dfy`).

The plugin never flushes. Every read it makes of the join tables therefore sees
the rows as they were before the call. Its effect is a plan: a sequence of
per-entity steps, all computed from those rows (`ApplyGroupsPlugin.InvokePlan`).
The imperative methods are proved to schedule exactly that plan's insertions
and deletions. Lemmas then state what a flush of a plan leaves in the tables.

## Model

| member | source | states |
|---|---|---|
| Store.RowsOf | src/Mvc/Controller/Plugin/ApplyGroups.php:258-260 | the rows found for an entity are exactly the stored rows whose entity column is that entity |
| Store.GroupsOf | src/Mvc/Controller/Plugin/ApplyGroups.php:111-117 | a group is among an entity's groups iff a join row links the two |
| Store.GroupsOfAll | src/Mvc/Controller/Plugin/ApplyGroups.php:196-202 | the groups of several entities are those linked to at least one of them |
| Store.SameGroupsSameSharing | src/Db/Filter/ResourceVisibilityFilter.php:40-47 | two resources with the same groups share a group with exactly the same users |
| Store.SharesGroupMonotone | src/Db/Filter/ResourceVisibilityFilter.php:40-47 | adding join rows never unlinks a resource from a user |
| Store.AddedRows | src/Mvc/Controller/Plugin/ApplyGroups.php:266-289 | the rows persisted are the requested groups of this entity that are not stored yet, so no duplicate pair is created |
| Store.EntityChanges | src/Mvc/Controller/Plugin/ApplyGroups.php:262-312 | insertions are new rows, deletions are stored rows, all of the target entity; "remove" inserts nothing and "append" deletes nothing |
| Store.EntityChangesCorrect | src/Mvc/Controller/Plugin/ApplyGroups.php:247-313 | after the flush the entity holds exactly the requested set (replace), the union (append) or the difference (remove); no other entity's row changes; append only adds, remove only deletes |
| Store.PlanChangesTargeted | src/Mvc/Controller/Plugin/ApplyGroups.php:71-155 | the changes of all the calls made before one flush insert only new rows, delete only stored rows, and touch only entities some call worked on |
| Store.PlanChangesConcat | Module.php:755-763 | the changes of two series of calls before one flush are the unions of their insertions and of their deletions |
| Store.CommitPlanRows | src/Mvc/Controller/Plugin/ApplyGroups.php:232-237 | when the calls work on distinct entities, each row of a called entity ends as that call alone leaves it, and every other row is kept as it was |
| Store.CommitPlan | src/Mvc/Controller/Plugin/ApplyGroups.php:232-237 | after the flush of calls on distinct entities, each entity holds the group set its action promises, and every other entity keeps its rows |
| Store.EntityManager.FindBy | src/Mvc/Controller/Plugin/ApplyGroups.php:258-260 | findBy on the entity column returns the flushed rows of that entity |
| Store.EntityManager.Exists | src/Mvc/Controller/Plugin/ApplyGroups.php:277-283 | the lookup of one (group, entity) pair is true iff the row is stored |
| Store.EntityManager.Persist | src/Mvc/Controller/Plugin/ApplyGroups.php:285-288 | persisting schedules one new row and keeps the manager's invariant that no scheduled row is stored already |
| Store.EntityManager.Remove | src/Mvc/Controller/Plugin/ApplyGroups.php:299 | removing schedules the deletion of a stored row |
| Store.EntityManager.Flush | Module.php:673 | the tables become the stored rows minus the scheduled deletions plus the scheduled insertions; nothing stays pending |
| ApplyGroupsPlugin.SearchGroups | src/Mvc/Controller/Plugin/ApplyGroups.php:349-354 | the API search returns exactly the stored groups selected by one of the keys, by id or by name |
| ApplyGroupsPlugin.CheckedGroups | src/Mvc/Controller/Plugin/ApplyGroups.php:325-356 | as written: no reference gives no group; group entities give their own ids; a first reference whose key is not a string (an object's int id, an int 'o:id', an int value, false or null) raises the TypeError of preg_match under strict_types; otherwise the stored groups the keys select, all by id or all by name as the first key decides |
| ApplyGroupsPlugin.CheckedGroupsCast | src/Mvc/Controller/Plugin/ApplyGroups.php:325-356 | corrected: the first key is read as a string, so an int id counts as an id; entities give their ids; other references give the stored groups they select |
| ApplyGroupsPlugin.CheckedGroupsAgree | src/Mvc/Controller/Plugin/ApplyGroups.php:325-356 | wherever checkGroups does not raise, it returns the groups of the corrected reading |
| ApplyGroupsPlugin.IntReferenceThrows | src/Mvc/Controller/Plugin/ApplyGroups.php:334-347 | as written, for every groups table: a first reference that is a representation or reference object, an array with an int 'o:id', or an int value raises the TypeError |
| ApplyGroupsPlugin.IntReferencesSelectTheirGroups | src/Mvc/Controller/Plugin/ApplyGroups.php:334-354 | corrected: references that all carry non-negative int ids designate exactly the stored groups with one of those ids |
| ApplyGroupsPlugin.ListWithIdAsKey | src/Mvc/Controller/Plugin/ApplyGroups.php:364-372 | the keys are exactly the ids of the list, and each key holds the last entity with that id |
| ApplyGroupsPlugin.GroupsFromItemSetsUnion | src/Mvc/Controller/Plugin/ApplyGroups.php:186-208 | an item's groups from above are the union of the groups of its other item sets and the groups supplied by the item set being processed; with no other item set, the supplied groups or none |
| ApplyGroupsPlugin.ItemAndMediaSteps | src/Mvc/Controller/Plugin/ApplyGroups.php:218-238 | the item and each of its media receive a "replace" with the same group set |
| ApplyGroupsPlugin.RecursiveItemGroups | src/Mvc/Controller/Plugin/ApplyGroups.php:134-135 | corrected: an item saved with recursion passes down the requested set, the union or the difference, as its action says; a removed group is never passed down |
| ApplyGroupsPlugin.RecursiveItemPlanFlushed | src/Mvc/Controller/Plugin/ApplyGroups.php:134-135 | corrected: once flushed, the item and each of its media hold what the action promises for the item's current groups |
| ApplyGroupsPlugin.RecursiveItemFlushedAsWritten | src/Mvc/Controller/Plugin/ApplyGroups.php:134-135 | as written, for every table state: once flushed, the item and each of its media hold exactly the requested groups, whatever the action |
| ApplyGroupsPlugin.RemoveOnRecursiveItemAssignsRemovedGroups | src/Mvc/Controller/Plugin/ApplyGroups.php:134-135 | as written, for every table state: a "remove" on a recursive item leaves it and its media with exactly the groups to remove, none of the groups the removal should leave, and a result other than the intended one whenever some group is removed |
| ApplyGroupsPlugin.InvokePlan | src/Mvc/Controller/Plugin/ApplyGroups.php:78-98 | without the ACL privilege of the action (replace: update, append: create, remove: delete) the call changes nothing, and a call whose checkGroups raises changes nothing either |
| ApplyGroupsPlugin.ItemSetChildrenShape | src/Mvc/Controller/Plugin/ApplyGroups.php:123-125 | every step made for the items of an item set is a "replace" on group_resource |
| ApplyGroupsPlugin.ItemSetChildrenCover | src/Mvc/Controller/Plugin/ApplyGroups.php:123-125 | every item of the set, and every media of that item, receives a "replace" with the item's groups from above |
| ApplyGroupsPlugin.ItemSetPropagation | src/Mvc/Controller/Plugin/ApplyGroups.php:106-127 | a recursive item set first gets its own action, then every item and media gets the groups of the item's other item sets joined with the item set's groups after the action, computed from the rows before the call |
| ApplyGroupsPlugin.ItemAndMediaDistinct | src/Mvc/Controller/Plugin/ApplyGroups.php:232-237 | when the item and its media are distinct resources, their steps work on distinct entities |
| ApplyGroupsPlugin.ItemAndMediaFlushed | src/Mvc/Controller/Plugin/ApplyGroups.php:218-238 | once flushed, the item and every one of its media hold exactly the same group set |
| ApplyGroupsPlugin.ItemFromAboveFlushed | src/Mvc/Controller/Plugin/ApplyGroups.php:129-133 | an item saved with groups from above ends with the union of the groups of its item sets, and so does each of its media |
| ApplyGroupsPlugin.ApplyGroups.Invoke | src/Mvc/Controller/Plugin/ApplyGroups.php:71-155 | the call sets isUser, reads but never flushes the tables, schedules exactly the changes of InvokePlan, and reports the TypeError exactly when it passes the ACL gate and checkGroups raises |
| ApplyGroupsPlugin.ApplyGroups.Dispatch | src/Mvc/Controller/Plugin/ApplyGroups.php:98-154 | the dispatch on the kind of entity schedules exactly the changes of DispatchPlan |
| ApplyGroupsPlugin.ApplyGroups.ApplyToItemSet | src/Mvc/Controller/Plugin/ApplyGroups.php:106-127 | the item set case schedules its own step, then, with recursion, its items' steps from the groups before the call |
| ApplyGroupsPlugin.ApplyGroups.ApplyToItems | src/Mvc/Controller/Plugin/ApplyGroups.php:123-125 | the loop over the items schedules the changes of ItemSetChildren |
| ApplyGroupsPlugin.ApplyGroups.ApplyToItem | src/Mvc/Controller/Plugin/ApplyGroups.php:129-139 | the item case: the groups from above for the item and its media; with recursion, a "replace" of the item and its media by the requested groups; otherwise the plain action |
| ApplyGroupsPlugin.ApplyGroups.ApplyToMedia | src/Mvc/Controller/Plugin/ApplyGroups.php:141-153 | the media case: with groups from above, a saved media of a saved item takes its item's groups and any other media gets nothing; without, the plain action applies |
| ApplyGroupsPlugin.ApplyGroups.CurrentGroups | src/Mvc/Controller/Plugin/ApplyGroups.php:111-117 | the groups collected row by row are the resource's stored groups |
| ApplyGroupsPlugin.ApplyGroups.CheckGroups | src/Mvc/Controller/Plugin/ApplyGroups.php:325-356 | the result is CheckedGroups of the references: the ids found, or the TypeError on a first key that is not a string |
| ApplyGroupsPlugin.ApplyGroups.GetItemGroups | src/Mvc/Controller/Plugin/ApplyGroups.php:163-176 | the groups of a saved item are its stored groups |
| ApplyGroupsPlugin.ApplyGroups.GetItemGroupsFromItemSets | src/Mvc/Controller/Plugin/ApplyGroups.php:186-208 | the result is GroupsFromItemSets, the empty-item-set case included |
| ApplyGroupsPlugin.ApplyGroups.ApplyGroupsToItemAndMedia | src/Mvc/Controller/Plugin/ApplyGroups.php:218-238 | schedules the same "replace" for the item and each media, with the groups from above when asked |
| ApplyGroupsPlugin.ApplyGroups.ReplaceOnAll | src/Mvc/Controller/Plugin/ApplyGroups.php:235-237 | the loop over the media schedules a "replace" of each of them by the same groups |
| ApplyGroupsPlugin.ApplyGroups.ApplyGroupsToEntity | src/Mvc/Controller/Plugin/ApplyGroups.php:247-313 | schedules exactly EntityChanges on the join table isUser selects |
| ApplyGroupsPlugin.ApplyGroups.GroupsToAssign | src/Mvc/Controller/Plugin/ApplyGroups.php:266-272 | the groups left to assign are the requested groups no current row holds |
| ApplyGroupsPlugin.ApplyGroups.PersistGroups | src/Mvc/Controller/Plugin/ApplyGroups.php:275-289 | one row is persisted per group to assign, unless the pair is stored already |
| ApplyGroupsPlugin.ApplyGroups.RemoveRows | src/Mvc/Controller/Plugin/ApplyGroups.php:295-311 | exactly the current rows whose group is outside (replace) or inside (remove) the requested groups are removed |
| GroupAdapter.LightShape | src/Api/Adapter/GroupAdapter.php:300-303 | the light sanitisation leaves no run of two whitespace characters and no whitespace at either end |
| GroupAdapter.LightKeeps | src/Api/Adapter/GroupAdapter.php:300-303 | a string without whitespace is left unchanged |
| GroupAdapter.LightIdempotent | src/Api/Adapter/GroupAdapter.php:300-303 | the light sanitisation applied twice gives the same result |
| GroupAdapter.BlankClean | src/Api/Adapter/GroupAdapter.php:288-290 | after the three replacements no bracket and no blanked character but the space is left |
| GroupAdapter.SanitizeWithClean | src/Api/Adapter/GroupAdapter.php:282-292 | the sanitised string holds no bracket and no blanked character but the space, has single spaces and no whitespace at either end |
| GroupAdapter.SanitizeWithShorter | src/Api/Adapter/GroupAdapter.php:287-291 | the sanitisation is never longer than the string trimmed of the edge characters |
| GroupAdapter.SanitizeWithKeeps | src/Api/Adapter/GroupAdapter.php:282-292 | a string with none of the characters acted on is its own sanitisation |
| GroupAdapter.CharClassesSound | src/Api/Adapter/GroupAdapter.php:287-291 | the replacement characters "[", "]" and the space are not brought back into a class an earlier step removed |
| GroupAdapter.SanitizeLightClean | src/Api/Adapter/GroupAdapter.php:300-303 | sanitizeLightString's result has single spaces and no whitespace at either end |
| GroupAdapter.SanitizeLightIdempotent | src/Api/Adapter/GroupAdapter.php:300-303 | sanitizeLightString applied twice gives the same result |
| GroupAdapter.SanitizeStringClean | src/Api/Adapter/GroupAdapter.php:282-292 | sanitizeString's result holds no ( { ) } / \ ? < > * % \| " ` & ; # + ^ $, no control character and no whitespace but single spaces, and no whitespace at either end |
| GroupAdapter.ChecksCases | src/Api/Adapter/GroupAdapter.php:108-126 | each check adds its error exactly when it fails (changed by sanitizeString, digits only, a reserved word once lower-cased), and none says "must have a name" |
| GroupAdapter.NameErrorsCases | src/Api/Adapter/GroupAdapter.php:101-132 | "must have a name" is reported iff the name is not a string or is blank, and is then the only error; otherwise each check reports iff it fails |
| GroupAdapter.AcceptedNameIsClean | src/Api/Adapter/GroupAdapter.php:101-132 | an accepted name is its own light and full sanitisation, not digits only and not a reserved word |
| GroupAdapter.DigitsNameRejected | src/Api/Adapter/GroupAdapter.php:115-118 | a name made of digits only is rejected as a number |
| GroupAdapter.Hydrated | src/Api/Adapter/GroupAdapter.php:58-71 | a field to hydrate that holds a string becomes that string trimmed, and one that holds an int becomes the int written in decimal; an absent field, or a null one, keeps its value |
| GroupAdapter.HydrateIdempotent | src/Api/Adapter/GroupAdapter.php:58-71 | hydrating twice from the same request changes nothing more |
| GroupAdapter.HydratedTrimmed | src/Api/Adapter/GroupAdapter.php:61 | a hydrated string or int has no character trim() removes at either end |
| GroupAdapter.OwnNameUnique | src/Api/Adapter/GroupAdapter.php:86 | a saved group keeping its name passes the uniqueness check iff no other group has that name |
| GroupAdapter.SortColumn | src/Api/Adapter/GroupAdapter.php:249-274 | a non-string sort key and the information keys sort nothing; any other key sorts by its sort field when it has one, and by nothing otherwise |
| GroupAdapter.SortAlias | src/Api/Adapter/GroupAdapter.php:24-38 | sorting by "group" is sorting by "name" |
| GroupAdapter.Adapter.Hydrate | src/Api/Adapter/GroupAdapter.php:55-72 | the entity's name and comment become their Hydrated values, an int being cast to its decimal string; its id is kept |
| GroupAdapter.Adapter.ValidateName | src/Api/Adapter/GroupAdapter.php:101-132 | the errors are appended in order under "o:name", and the result is true iff none was added |
| GroupAdapter.Adapter.ReportChecks | src/Api/Adapter/GroupAdapter.php:108-126 | the three checks append their errors in order; the result is true iff none failed |
| GroupAdapter.Adapter.ValidateRequest | src/Api/Adapter/GroupAdapter.php:74-80 | the name is validated iff the request holds the key, even with a null value |
| GroupAdapter.Adapter.ValidateEntity | src/Api/Adapter/GroupAdapter.php:82-92 | the name errors, then "already taken" iff the name is not unique |
| GroupAdapter.NoBreakSpaceByteIsEdge | src/Api/Adapter/GroupAdapter.php:287 | as PHP reads the character list, the byte A0 alone is an edge character |
| GroupAdapter.VoilaLightAsWritten | src/Api/Adapter/GroupAdapter.php:300-303 | on bytes, the light sanitisation keeps "Voilà" |
| GroupAdapter.VoilaSanitizedAsWritten | src/Api/Adapter/GroupAdapter.php:287 | on bytes, sanitizeString shortens "Voilà" |
| GroupAdapter.VoilaAccepted | src/Api/Adapter/GroupAdapter.php:101-132 | on characters, validateName accepts "Voilà" |
| GroupAdapter.TrailingAGraveAsWritten | src/Api/Adapter/GroupAdapter.php:287 | as written, the name "Voilà" is changed by sanitizeString and so rejected; the model accepts it |
| GroupMapping.DefaultEntriesCases | src/Mapping/GroupMapping.php:33-41 | each default identifier gives one entry: by id when made of digits, its value cast as PHP does, capped at PHP_INT_MAX; by name otherwise |
| GroupMapping.NonEmptyOf | src/Mapping/GroupMapping.php:56 | the filter keeps exactly the values of non-zero length |
| GroupMapping.SingleValueCell | src/Mapping/GroupMapping.php:48-49 | a cell of a column without the multivalue flag is one value, dropped only when empty |
| GroupMapping.MultiValueCellPieces | src/Mapping/GroupMapping.php:50-56 | the values of a multivalue cell are its non-empty trimmed pieces |
| GroupMapping.MultiValueCell | src/Mapping/GroupMapping.php:50-56 | a value of a multivalue cell is exactly a non-empty trim of a piece between separators, with no trimmed character at either end |
| GroupMapping.ZeroIsKept | src/Mapping/GroupMapping.php:56 | a cell "0" gives the value "0", though PHP counts "0" as false, because the filter tests the length |
| GroupMapping.FoundEntriesConcat | src/Mapping/GroupMapping.php:57-63 | found groups are appended in the order of the values |
| GroupMapping.FoundEntriesCount | src/Mapping/GroupMapping.php:57-63 | each value gives at most one entry, every value gives one iff none is missing, and every entry is the id some value identifies |
| GroupMapping.GroupValuesOf | src/Mapping/GroupMapping.php:47-64 | a value is looked up iff one of the row's group columns gives it |
| GroupMapping.RowGroupsShape | src/Mapping/GroupMapping.php:18-68 | the group data is absent iff neither group columns nor defaults are set; otherwise the defaults come first, then the ids found in the group columns |
| GroupMapping.NoGroupColumns | src/Mapping/GroupMapping.php:57 | without group columns no cell is looked up |
| GroupMapping.RowStep | src/Mapping/GroupMapping.php:47-65 | one more cell appends its found groups and raises the flag iff one of its values is missing |
| GroupMapping.RowMissingIff | src/Mapping/GroupMapping.php:21 | the flag of a row is raised iff a value of one of its own group columns names no group |
| GroupMapping.Mapping.FindGroup | src/Mapping/GroupMapping.php:70-81 | an identifier of digits is looked up by id, any other by name; the error flag is raised when nothing is found |
| GroupMapping.Mapping.ProcessRow | src/Mapping/GroupMapping.php:18-68 | the data is RowGroups, and the flag, reset first, tells whether this row named a missing group |
| GroupMapping.Mapping.MapRow | src/Mapping/GroupMapping.php:47-65 | the loop over the cells appends the groups found, in order, and sets the flag |
| GroupMapping.Mapping.MapCell | src/Mapping/GroupMapping.php:48-64 | a group column's values are looked up; another cell adds nothing |
| GroupMapping.Mapping.Defaults | src/Mapping/GroupMapping.php:33-41 | the default entries, appended one by one |
| GroupMapping.Mapping.MapValues | src/Mapping/GroupMapping.php:58-63 | each value found appends its id, in order; a missing one raises the flag |
| GroupMapping.Mapping.ProcessValue | src/Mapping/GroupMapping.php:58-63 | one value adds its id when found, and raises the flag when not |
| GroupMapping.TrimPieceAsWritten | src/Mapping/GroupMapping.php:52-54 | on bytes, the piece has none of the list's bytes at its ends |
| GroupMapping.CellTrimBytesOf | src/Mapping/GroupMapping.php:53 | the bytes trim() reads in the list are exactly the UTF-8 bytes of the listed characters, each on its own: 09 0A 0D 20 C2 A0 E2 80 AF |
| GroupMapping.TrailingAGraveTrimmedAsWritten | src/Mapping/GroupMapping.php:53 | as written, the trim shortens "Voilà"; on characters it keeps it whole |
| GroupMapping.VoilaKeptWhole | src/Mapping/GroupMapping.php:53 | on characters the trim of a piece keeps "Voilà" |
| GroupModule.IsRecursive | Module.php:1191-1205 | a kind is recursive only when some kind takes its groups from it |
| GroupModule.TakeGroupsFromAbove | Module.php:1168-1183 | a kind takes its groups from above iff the kind above it is recursive |
| GroupModule.SwitchesByKind | Module.php:1168-1205 | item sets and users never take groups from above; items follow group_recursive_item_sets and media group_recursive_items; item sets and items are recursive by the same two settings; media and users never |
| GroupModule.FormControllers | Module.php:359-374 | the item set form always gets the group element, first; a kind gets it iff its groups are not recomputed from above; no duplicate |
| GroupModule.DropFalsy | Module.php:1256 | the values kept are exactly those that are not "" or "0" |
| GroupModule.DropFalsyKeeps | Module.php:1256 | a list with no false value is kept whole |
| GroupModule.CleanStrings | Module.php:1251-1257 | every value left is neither "" nor "0" and has no blank at either end |
| GroupModule.CleanStringsOf | Module.php:1251-1257 | the values are exactly the true trims of the comma-separated pieces, or of the members of a list |
| GroupModule.CleanStringsIdempotent | Module.php:1251-1257 | cleaning a cleaned list changes nothing |
| GroupModule.CleanIdIsDigits | Module.php:565 | a cleaned value that passes the id test is made of digits only |
| GroupModule.HasGroupsMeaning | Module.php:540-558 | with has_groups only entities with at least one group are selected |
| GroupModule.GroupConditionsMeaning | Module.php:603-635 | the conditions select an entity iff every listed value designates a group of that entity |
| GroupModule.SearchConditionsMeaning | Module.php:536-637 | an entity is selected iff it has some group when has_groups is set, and has ALL the listed groups, by id or by name as the first value decides |
| GroupModule.IdSearchWithNameMatchesNothing | Module.php:565 | under exact comparison: when the first value is an id, a later name makes the search match nothing |
| GroupModule.NameSearchWithIdMatchesNothing | Module.php:565 | when the first value is a name, a later id matches no name validateName accepts, so the search matches nothing |
| GroupModule.SearchQuery | Module.php:536-637 | the query builder gets exactly the conditions of SearchConditions appended |
| GroupModule.AddGroupFilter | Module.php:560-636 | an empty value, or one with nothing left after cleaning, adds nothing; otherwise one condition per value |
| GroupModule.AddGroupConditions | Module.php:603-635 | the loop appends one condition per listed group |
| GroupModule.FilterMedia | Module.php:456-508 | nothing is added for a viewer with view-all; otherwise the media visibility condition |
| GroupModule.FilterMediaMeaning | Module.php:456-508 | a media is visible iff the viewer may view all, or its item is public, or the viewer is logged in and owns the item or shares a group with it |
| GroupModule.PropagatedMediaSharesAsItem | Module.php:480-505 | with groups propagated from the item, testing the item's groups, as filterMedia does, gives the same answer as testing the media's |
| GroupModule.CreateCall | Module.php:645-669 | a create appends the submitted groups iff the ACL allows create and the request holds groups |
| GroupModule.UpdateCall | Module.php:682-712 | an update replaces with the submitted groups iff the ACL allows update and the request holds the item sets (recursive kind) or the groups (otherwise) |
| GroupModule.BatchCall | Module.php:725-747 | remove_groups wins over add_groups, and neither means nothing to do |
| GroupModule.DeleteCall | Module.php:778-796 | the recursive delete of an item set replaces its groups by none, recursively |
| GroupModule.SecondAclCheck | Module.php:1153-1160 | without the plugin's own privilege for the action nothing changes; create and update pass it whenever the handler's check passed |
| GroupModule.RecursiveDeletePlan | Module.php:778-801 | the item set is emptied, and each of its items and media get the groups of the item's other item sets |
| GroupModule.Handle | Module.php:669-673 | one plugin call, then a flush: the tables hold the flush of what was pending plus the call's plan; when the plugin raises, the handler stops before the flush and nothing changes |
| GroupModule.HandleCreatePost | Module.php:645-674 | the tables end as CreateCall's plan leaves them once flushed, or unchanged when there is no call or the plugin raises |
| GroupModule.HandleUpdatePost | Module.php:682-717 | the tables end as UpdateCall's plan leaves them once flushed, or unchanged when there is no call or the plugin raises |
| GroupModule.HandleRecursiveDeleteItemSetPre | Module.php:778-801 | the tables end as DeleteCall's plan leaves them once flushed, or unchanged when there is no call or the plugin raises |
| GroupModule.HandleBatchUpdatePost | Module.php:725-770 | the same call for every resource, all reading the rows before the batch, then one flush; when the call raises, it does so on the first resource and nothing changes |
| VisibilityFilter.GetResourceConstraint | src/Db/Filter/ResourceVisibilityFilter.php:19-51 | an empty constraint is returned unchanged; without an identity the host's constraint is returned; with one the group clause is OR-appended |
| VisibilityFilter.ConstraintAdmits | src/Db/Filter/ResourceVisibilityFilter.php:40-47 | a resource is visible iff nothing is filtered, or the host's rule admits it, or the viewer shares a group with it |
| VisibilityFilter.ConstraintWidens | src/Db/Filter/ResourceVisibilityFilter.php:40-41 | whatever the host's rule admits stays visible |
| VisibilityFilter.AnonymousIgnoresGroups | src/Db/Filter/ResourceVisibilityFilter.php:29-33 | without an identity the groups change nothing |
| VisibilityFilter.MoreRowsMoreVisible | src/Db/Filter/ResourceVisibilityFilter.php:40-47 | more join rows never hide a resource |
| VisibilityFilter.AppendKeepsVisible | src/Mvc/Controller/Plugin/ApplyGroups.php:263-293 | an "append", once flushed, keeps every visible resource visible |
| Php.TrimLeft | Module.php:1256 | the left trim is a suffix of the string that does not start with a trimmed character |
| Php.TrimLeftRemoves | Module.php:1256 | everything the left trim removes is a trimmed character |
| Php.TrimRight | Module.php:1256 | the right trim is a prefix of the string that does not end with a trimmed character |
| Php.TrimRightRemoves | Module.php:1256 | everything the right trim removes is a trimmed character |
| Php.Trim | Module.php:1256 | the trim is no longer than the string, and neither end is a trimmed character |
| Php.TrimRemoves | Module.php:1256 | what trim removes before and after the middle it keeps is made of trimmed characters only |
| Php.TrimIdempotent | Module.php:1256 | trimming twice changes nothing more |
| Php.TrimChars | src/Api/Adapter/GroupAdapter.php:291 | every character of a trim is a character of the string |
| Php.TrimKeepsInner | src/Mapping/GroupMapping.php:53 | a string whose ends are not trimmed characters is kept |
| Php.TrimEachOf | Module.php:1256 | the members of the mapped list are the trims of the parts, none with a trimmed end |
| Php.FlattenMember | src/Mapping/GroupMapping.php:47-64 | a value of the joined lists is a value of one of them |
| Php.ReplaceChars | src/Api/Adapter/GroupAdapter.php:288-290 | every character of the class becomes the replacement, every other is kept |
| Php.CollapseRuns | src/Api/Adapter/GroupAdapter.php:302 | every run of whitespace becomes one space: no whitespace but the space is left, no two touch, and the result starts with whitespace iff the string does |
| Php.CollapseRunsFrom | src/Api/Adapter/GroupAdapter.php:302 | the result holds only characters of the string and the space |
| Php.CollapseRunsKeeps | src/Api/Adapter/GroupAdapter.php:302 | every character that is not whitespace is kept |
| Php.CollapseSingleRuns | src/Api/Adapter/GroupAdapter.php:302 | a string whose runs are single already is kept |
| Php.TrimSingleRuns | src/Api/Adapter/GroupAdapter.php:291 | trimming keeps the runs single |
| Php.Lower | src/Api/Adapter/GroupAdapter.php:123 | the ASCII capitals become small letters, every other character is kept |
| Php.IntCast | src/Mapping/GroupMapping.php:38 | the cast of a digit string never exceeds PHP_INT_MAX, is the string's value below it and PHP_INT_MAX above it |
| Php.DecimalDigits | src/Api/Adapter/GroupAdapter.php:68 | the decimal writing of a natural number is digits only, denotes that number, and has no leading zero |
| Php.IntString | src/Api/Adapter/GroupAdapter.php:68 | an int cast to a string is digits iff the int is not negative; the digits denote the int, after a minus sign when it is negative |
| Php.IntStringTrimmed | src/Api/Adapter/GroupAdapter.php:61-68 | trim() keeps the string of an int unchanged |
| Php.IndexOf | Module.php:1254 | the first position where the separator occurs, or none when it does not occur |
| Php.ExplodePiecesFree | Module.php:1254 | no piece of explode holds the separator |
| Php.ImplodeExplode | Module.php:1254 | joining the pieces with the separator gives the string back |

## Left out

- Input and output: the logger of the CSV mapping, the translated messages, HTTP requests and forms. The ACL, the API searches, `strip_tags`, the authentication service and the host's own visibility rule are parameters of the model.
- The PHP arrays keyed by group id become sets of ids. The order of those arrays, and the `ksort` in getItemGroupsFromItemSets, do not change which rows are stored.
- Doctrine internals: the identity map, and the duplicate-persist error the batch comment warns of. The `clear()` after a recursive batch (Module.php:767-769) is left out because it does not change the stored rows.
- The text of the DQL and SQL queries (joins, aliases, parameters), in searchQuery, filterMedia, the resource filter and the adapter's buildQuery. Only which rows they select is modelled.
- GroupModule.SearchConditionsMeaning: the database compares names with the column's collation, which is case-insensitive in MySQL, and casts ids from strings. The model compares exactly.
- GroupModule.GroupConditionsMeaning: compares names and ids exactly, for the same reason; a name differing only in case from a stored group, or an id value such as "12abc", matches more in the database.
- GroupModule.IdSearchWithNameMatchesNothing: holds under exact comparison only; MySQL casts a later value such as "12abc" to 12 and may then match group 12.
- ApplyGroupsPlugin.SearchGroups: the API search matches names exactly, while the utf8mb4_unicode_ci name column (Module.php:100-106) matches "editors" to "Editors", and ids without MySQL's string-to-integer cast.
- ApplyGroupsPlugin.CheckedGroups: inherits the exact matching of SearchGroups, so a reference differing only in case from a stored name selects no group in the model. Keys after the first that are neither strings nor ints select nothing in a search by id.
- GroupModule.Handle: the TypeError of checkGroups is modelled as a flag. Its propagation out of the API request, and the error response the user then sees, are not modelled; only that nothing is scheduled or flushed is.
- GroupAdapter.Hydrated: a request field is absent, null, a string or an int. Floats and booleans, which trim() also casts, are not modelled. Neither is an array, on which trim() raises a TypeError.
- GroupAdapter.OwnNameUnique: IsUnique compares names exactly; with the case-insensitive unique name column, isUnique also rejects "editors" beside a stored "Editors".
- GroupAdapter.Adapter.ValidateEntity: reports "already taken" only for an exact match of the name, for the reason given on the OwnNameUnique line.
- GroupModule.CleanStrings: a list holding values that are not strings is not modelled, because the query value is a string or a list of strings.
- Character classes (`\s`, `[[:cntrl:]]`, `strtolower`) are the ASCII ones. The sanitisers work on characters. The byte-level reading is modelled only for the two findings below.
- The rest of the module is not part of this model: install and uninstall, the ACL rules, listener wiring, forms, view helpers, representations, the ListGroups plugin, the GroupCount helper and the DetachOrphanGroupEntities listener.
- ApplyGroupsPlugin.ApplyGroups.Invoke: the documented "no mix" of reference kinds is a precondition (SameKind). Mixed lists are not modelled.
- ApplyGroupsPlugin.InvokePlan: the action is one of "replace", "append" and "remove". The ACL switch of __invoke (ApplyGroups.php:80-96) has no default, so an unknown action passes the gate; no caller passes one, and the three-valued action cannot express it.

## Findings

The plugin and the handlers follow the code as written; each corrected definition stands beside them with its intended property proved.

| source | as written | input that shows it | evidently intended | confidence | as-written member | corrected member |
|---|---|---|---|---|---|---|
| src/Mvc/Controller/Plugin/ApplyGroups.php:134-135 | an item saved with recursion passes the requested groups to applyGroupsToItemAndMedia. That method always replaces, so the collection action is ignored | a batch "remove" of group 2, with group_recursive_items on, on item 7 holding group 1: the item and its media end with group 2 only | the action is applied to the item's current groups, as the item set branch does at lines 110-121: the item keeps group 1 | not executed | ApplyGroupsPlugin.RecursiveItemFlushedAsWritten, ApplyGroupsPlugin.RemoveOnRecursiveItemAssignsRemovedGroups | ApplyGroupsPlugin.RecursiveItemGroups, ApplyGroupsPlugin.RecursiveItemPlanFlushed |
| src/Mvc/Controller/Plugin/ApplyGroups.php:334-347 | the file declares strict_types (line 1), and preg_match at line 347 is given the first key as it is. For a representation or reference object (`id()` returns an int), an array with an int 'o:id', or an int id, that key is an int, and preg_match raises a TypeError before any group is searched | `[ObjectRef(3)]` (a group representation of id 3) with group 3 stored: checkGroups raises and the call schedules nothing. The CSV mapping's own entries, `['o:id' => (int) $id]` at GroupMapping.php:38 and the ids appended at line 61, are of this kind | the key is read as a string, as the docblocks at lines 64 and 322 promise these references work: group 3 is selected | not executed | ApplyGroupsPlugin.IntReferenceThrows, ApplyGroupsPlugin.CheckedGroups | ApplyGroupsPlugin.CheckedGroupsCast, ApplyGroupsPlugin.IntReferencesSelectTheirGroups |
| src/Api/Adapter/GroupAdapter.php:287 | the trim list ends with a no-break space, which trim() reads byte by byte, so the byte A0 alone is trimmed | the name "Voilà" (UTF-8 bytes 56 6F 69 6C C3 A0) loses its final byte, differs from its light sanitisation and is rejected for forbidden characters | the no-break space is trimmed as one character, and "Voilà" is accepted | not executed | GroupAdapter.TrailingAGraveAsWritten | GroupAdapter.VoilaAccepted |
| src/Mapping/GroupMapping.php:53 | the trim list of a multivalue piece holds the no-break and narrow no-break spaces, read as the single bytes C2, A0, E2, 80 and AF | a multivalue cell "Voilà" is trimmed to bytes that are not valid UTF-8, so the value looked up is not the cell's text | the two spaces are trimmed as characters, and "Voilà" is kept whole | not executed | GroupMapping.TrailingAGraveTrimmedAsWritten | GroupMapping.MultiValueCell |
