# Role permission comparison, modelled in Dafny

The Drupal module *Compare Role Permissions* adds an administration form. On it
an administrator picks two user roles, and the form shows which permissions
differ between them. All of the real logic sits in
`RolesCompareForm::printRoleDiff`. That method works in three steps:

- It builds the difference list: the permissions only role 2 grants, in role 2's
  order, then the permissions only role 1 grants, in role 1's order.
- If that list is empty, it adds the message "Both the selected roles has
  similar permissions" to the form.
- Otherwise it adds a four-column table (`Module`, `Permission`, and the two role
  labels) with one row per differing permission.

The table is built in two loops. The first loop walks the difference list by
index. It files each entry's row, which holds the module name, the permission
title and a `Yes`/`No` answer per role, under the entry's provider module. The
second loop walks the providers in the order they were first filed, and each
provider's rows in index order. It writes every row into the table under its
index.

The project has five files:

- `wrappers.dfy`: `Option`.
- `php_array.dfy`: PHP's ordered arrays as a sequence of key/value pairs.
  - `Assign` is `$a[$k] = $v`: it replaces the value of a present key in place
    and appends a new key at the end.
- `permission_diff.dfy`: `array_diff` and the difference list `$role_diff`.
- `provider_grouping.dfy`: the order of the table, stated as functions of the
  providers of the entries.
  - `FirstSeen`: the providers in order of first occurrence.
  - `IndicesOf`: the indices of one provider, ascending.
  - `TableOrder`: the providers' index blocks one after the other.
  - The same file holds the generic steps of the two loops (`FileEntry`,
    `ReadEntry`).
- `roles_compare_form.dfy`: the form itself.
  - The data: `Role`, `PermissionMeta`, `Row`, `Table`, `Form`, `Comparison`.
  - The two loops as methods with loop invariants: `GroupRows` and
    `FlattenGroups`.
  - `PrintRoleDiff`, which is proved against the specification function
    `DiffTable`.
  - The lemmas about the table, and the cells a row is displayed with.

`$form` is passed by reference in the source. Here `PrintRoleDiff` takes the
form value and returns the new one, and its contract says the form is unchanged
apart from the one element written.

Three points about the code that the model keeps:

- The code does not sort the rows by module name and permission title. It
  lists providers in first-seen order and rows by ascending index within a
  provider, and so does the model.
- The code reads a permission's metadata without checking that it exists. The
  model requires every differing permission to have metadata (`HasMetadata`).
- The permission lists are arrays, and `array_diff` keeps repeated entries. The
  model keeps them too (`RoleDiffMultiplicity`).

## Model

| member | source | states |
|---|---|---|
| PhpArray.Assign | src/Form/RolesCompareForm.php:130-140 | writing a key that is not yet present appends the pair at the end; writing a present key leaves the key order unchanged |
| PhpArray.AssignInPlace | src/Form/RolesCompareForm.php:154-160 | writing a present key replaces the value of its first entry where it stands and changes nothing else |
| PermissionDiff.ArrayDiff | src/Form/RolesCompareForm.php:119 | `array_diff(a, b)` holds exactly the values of `a` that are not in `b`, and is no longer than `a` |
| PermissionDiff.ArrayDiffMultiplicity | src/Form/RolesCompareForm.php:119 | a value that `b` lacks is kept as many times as it occurs in `a` |
| PermissionDiff.ArrayDiffKeepsOrder | src/Form/RolesCompareForm.php:119 | `array_diff(a, b)` is a subsequence of `a`: the kept entries stay in `a`'s order |
| PermissionDiff.RoleDiff | src/Form/RolesCompareForm.php:118-120 | a permission is in the difference list exactly when one role grants it and the other does not |
| PermissionDiff.RoleDiffOrder | src/Form/RolesCompareForm.php:118-120 | the list is the role-2-only permissions in role 2's order, followed by the role-1-only permissions in role 1's order |
| PermissionDiff.RoleDiffMultiplicity | src/Form/RolesCompareForm.php:118-120 | a permission granted by one role only occurs as often as in that role's list; any other permission does not occur |
| PermissionDiff.NoDiffIffSamePermissions | src/Form/RolesCompareForm.php:118-121 | the list is empty exactly when both roles grant the same permissions |
| PermissionDiff.RoleDiffSwap | src/Form/RolesCompareForm.php:118-120 | swapping the roles swaps the two parts of the list; its contents, counted with multiplicity, stay the same |
| ProviderGrouping.FirstSeen | src/Form/RolesCompareForm.php:129-130 | the provider keys hold every provider of the list, and each one once |
| ProviderGrouping.FirstSeenOrdered | src/Form/RolesCompareForm.php:128-141 | the provider keys are in order of each provider's first occurrence in the list |
| ProviderGrouping.IndicesOf | src/Form/RolesCompareForm.php:128-131 | a provider's keys are exactly the indices of its entries, strictly ascending |
| ProviderGrouping.Blocks | src/Form/RolesCompareForm.php:142-143 | reading the blocks of some providers yields exactly the indices whose provider is among them |
| ProviderGrouping.First | src/Form/RolesCompareForm.php:129 | the position of a provider's first entry: that entry has the provider and no earlier one does |
| ProviderGrouping.TableOrderLength | src/Form/RolesCompareForm.php:142-161 | the table lists as many indices as the difference list has entries |
| ProviderGrouping.BlocksDistinct | src/Form/RolesCompareForm.php:142-161 | the blocks of distinct providers never repeat an index |
| ProviderGrouping.TableOrderIsPermutation | src/Form/RolesCompareForm.php:142-161 | the table order lists every index of the difference list exactly once and nothing else |
| ProviderGrouping.BlocksSorted | src/Form/RolesCompareForm.php:142-161 | blocks of providers taken in first-seen order are sorted by `Before` |
| ProviderGrouping.TableOrderSorted | src/Form/RolesCompareForm.php:142-161 | the table order is sorted by `Before`: providers by first occurrence, then ascending index within a provider |
| ProviderGrouping.TableOrderGrouped | src/Form/RolesCompareForm.php:142-161 | the rows of one provider are contiguous: no other provider's row lies between two of them |
| ProviderGrouping.FileEntry | src/Form/RolesCompareForm.php:128-141 | filing entry `i` under its provider appends key `i` (it is never present yet) and keeps the provider keys in first-seen order and each provider's keys equal to its indices |
| ProviderGrouping.ReadEntry | src/Form/RolesCompareForm.php:143-160 | writing a provider's next entry into the table appends it, because its key is in no earlier block and no earlier entry, so nothing is overwritten |
| ProviderGrouping.ReadProvider | src/Form/RolesCompareForm.php:142-162 | after a provider's entries, the keys written are the blocks of the providers read so far |
| RolesCompareForm.Has | src/Form/RolesCompareForm.php:132-138 | a role's answer reads 'Yes' exactly when its permission list contains the permission, and 'No' exactly when it does not |
| RolesCompareForm.MakeRow | src/Form/RolesCompareForm.php:129-140 | the row for a permission shows its provider's display name and its title, each role's answer is 'Yes' exactly when that role grants it, and for a differing permission exactly one answer is 'Yes' |
| RolesCompareForm.GroupRows | src/Form/RolesCompareForm.php:128-141 | after the first loop, the provider keys are in first-seen order, each provider holds exactly its indices ascending, and each index carries the row built from its permission |
| RolesCompareForm.FlattenGroups | src/Form/RolesCompareForm.php:142-162 | after the second loop, the table's keys are `TableOrder` of the providers and every key carries its own row |
| RolesCompareForm.PrintRoleDiff | src/Form/RolesCompareForm.php:110-169 | empty difference list: only the 'similar permissions' message is added. Otherwise only the table is added, with header Module, Permission and the two role labels, and rows `DiffTable` |
| RolesCompareForm.DiffTableComplete | src/Form/RolesCompareForm.php:128-161 | no row is lost or overwritten: the table holds each index of the difference list exactly once |
| RolesCompareForm.DiffTableRows | src/Form/RolesCompareForm.php:129-140 | each row shows its provider's display name and its title; each role's answer is 'Yes' exactly when that role grants the permission; exactly one of the two answers is 'Yes' |
| RolesCompareForm.DiffTableOrdered | src/Form/RolesCompareForm.php:142-162 | rows come grouped by provider, providers in first-seen order, ascending index within a provider |
| RolesCompareForm.SelfComparison | src/Form/RolesCompareForm.php:118-121 | comparing a role with itself gives an empty difference list, so only the message is shown |
| RolesCompareForm.DiffTableShows | src/Form/RolesCompareForm.php:128-162 | the table shows the row of every differing permission and no other row |
| RolesCompareForm.SwapRoles | src/Form/RolesCompareForm.php:118-140 | swapping the roles swaps the two parts of the difference list and shows the same rows with the two answers exchanged |
| RolesCompareForm.WrittenCells | src/Form/RolesCompareForm.php:143-160 | cells written as the code writes them, under 'module', 'permission' and the two machine names: between two and four cells, and the module name and title come first unless a machine name is 'module' or 'permission' |
| RolesCompareForm.RowCellsMatchHeader | src/Form/RolesCompareForm.php:144-160 | with fixed cell keys, a row has exactly the cells module name, title, role-1 answer, role-2 answer, in header order |
| RolesCompareForm.WrittenCellsNeedDistinctIds | src/Form/RolesCompareForm.php:154-160 | cells keyed by the roles' machine names match the header exactly when the two names differ and neither is 'module' or 'permission' |
| RolesCompareForm.WrittenCellsLoseModuleName | src/Form/RolesCompareForm.php:154-160 | a role with machine name 'module' overwrites the module cell with its answer, so the row has three cells |
| RolesCompareForm.RenderedTableFitsHeader | src/Form/RolesCompareForm.php:125-160 | with the corrected cell keys (`RowCells`), the displayed table has one row per differing permission, and each row has as many cells as the header |

## Left out

- The constructor and `create()` (src/Form/RolesCompareForm.php:34-48) are dependency-injection wiring.
- `getRolePermission` and `getRoleLabel` (56-68) load roles from storage.
  - A role is an input value: machine name (`id`), label (`roleLabel`, what `getRoleLabel` returns) and permission list.
  - An unknown role (a failed load) is not modelled.
- The values read from `$form_state` (112-113) are the two roles' machine names, `Role.id`.
- `getFormId`, `buildForm` and `submitForm` (73-103, 174-176) are form widgets and form lifecycle.
- `permissionHandler->getPermissions()` (122) is the `permissions` map of the comparison.
- `moduleHandler->getName` (130) is the opaque function `getName`.
- The render arrays (`#type`, `#markup`, the `inline_template` around the title; 123-126, 144-160) are plain values:
  - a `Table` of header and rows;
  - a cell as its text.
- `in_array` (133, 136) compares loosely, so for example two different numeric strings can count as equal, while `array_diff` compares string values exactly. `Has` and `ArrayDiff` both use exact equality, so that corner case of `in_array` is not modelled.
- A permission without metadata (129-131) makes PHP emit a notice and use null. The model excludes this case with the precondition `HasMetadata` instead of modelling it.
- PHP turns integer-like string keys into integer keys. The model keeps providers as strings; this does not change the insertion order the table depends on.

## Findings

| source | as written | input that shows it | evidently intended | confidence | as-written member | corrected member |
|---|---|---|---|---|---|---|
| src/Form/RolesCompareForm.php:154-160 | a row's role cells are written under the keys `$role1` and `$role2`, the roles' machine names, next to the fixed keys 'module' and 'permission' | role 1 with machine name `module`, role 2 `editor`, row (Node, Access the content overview page, No, Yes): the module cell is overwritten by 'No', and the row has 3 cells under a 4-column header | every row has the four cells module, permission, role 1's answer and role 2's answer, under keys that cannot clash with each other | medium; not executed | RolesCompareForm.WrittenCellsLoseModuleName | RolesCompareForm.RowCellsMatchHeader |

`WrittenCellsNeedDistinctIds` states every key clash of the cell writes. Only
the clashes with 'module' and 'permission' can show in a real table. Two equal
machine names load the same role, so the difference list is empty and no table
is built. `Comparison` does not tie `Role.id` to the role's permissions, so the
model does not derive this.
`Render` and `RenderedTableFitsHeader` use the corrected `RowCells`, which writes
the role cells under the fixed keys `role1` and `role2`.
