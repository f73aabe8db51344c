# Verified model of the Proxmox Rust workspace

A Dafny model of the parts of the workspace with the most state and the hardest promises, and
proofs of what they promise:

- **Access control** (`AclTree`, `AclEdits`, `AclEffects`, `AclDescent`, `AclPrivs`, `AclRules`, `AclBelow`,
  `AclBelowTree`, `AclGaps`, `AclObject`, on `AuthId`, `Text`, `Ordering`): the ACL tree with its in-place edits, the
  role and privilege lookups, and the question whether anything below a path grants a privilege.
- **The text form of the ACL tree** (`AclStore`, `AclLines`, `AclWriter`, `AclReload`, `AclLoaded`, `AclFaithful`,
  `AclReloadGaps`, `AclCanonical`): the compressing writer, the line parser, and what a reload keeps.
- **ZIP writer** (`Bytes`, `Zip`, `ZipRoundTrip`, `ZipEncoder`, `ZipGap`): the streaming encoder with all ZIP64 escapes,
  against a reader written from PKWARE's APPNOTE (sections 4.3 and 4.5).
- **Configuration caches** (`MtimeCache`, `UserInfoCache`, `ConfigCaches`, `ConfigRecreation`): state machines over all
  interleavings of readers, writers and the clock; `ConfigCaches` runs the mtime caches of both files inside the cache of
  user information.
- **ACME** (`AcmeAnswers`, `AcmeOrder`, `AcmeNonce`, `AcmeRuns`, `CanonicalJson`, `CanonicalJsonReader`): ordering a
  certificate, nonces and retries of both clients, and the canonical JSON stream of key thumbprints.
- **Text forms**: backup namespaces and snapshots (`Namespace`, `Snapshot`), APT repository handles (`AptHandle`),
  tickets (`Ticket`), user and token ids (`AuthId`).
- **Broadcast futures** (`Broadcast`).

`dafny verify dfyconfig.toml` checks the project.

## How the code is modelled

- An ACL node owns its children, so a node is a value; the tree object is a class whose methods replace its root. Loops
  of the source are loops here, proved against a function that says what they compute. An edit descends in a loop and
  changes the last node through a mutable borrow; here a second loop puts the changed node back under the nodes passed.
- A privilege mask is the set of its bits. The registered access control configuration (known roles, the 'no access'
  and the admin role, superusers) is the parameter `Conf`. Group membership is `false`, as in the source.
- Texts are sequences of code points; positions the source counts in bytes always fall on ASCII separators. `Ticket`
  works on bytes, a byte being the character of that code.
- The file system, the network, clocks, signing, base64, Deflate and time formatting are parameters or arbitrary
  answers: a server is any sequence of replies, an interleaving any sequence of steps.
- A failing ACL line leaves the node it had looked up in the tree; that tree is discarded by the loader, so only the
  failure is modelled.
- The clients of `AcmeNonce` differ in which replies they take a nonce from and in how they judge replies; one class has
  both, told apart by `blocking`.

## Where code and expectation differ

For each of these a lemma shows a concrete input and another lemma gives the exact condition.

- A cache hit of the mtime cache is not always the version current at the call's stat: a load that is overtaken by a
  replacement stores newer data under the older stamp (`MtimeCache.HitMayBeNewer`). It is for every hit of every run only
  if the file is never replaced (`MtimeCache.HitsExactIff`). The cache is linearizable all the same, unless the file is
  created after it was missing (`MtimeCache.RecreationBreaks`, `MtimeCache.LinearizableIff`).
- Freshness of the user information cache needs files that are not created after they were missing
  (`ConfigRecreation.RecreationBreaks`) and a generation counter that is always or never readable
  (`ConfigCaches.UnreliableGenerationBreaks`); `ConfigRecreation.FreshExactly` is the exact condition.
- A negative answer of `any_privs_below` can be wrong for the empty anchor, for an anchor with only non-propagating
  roles and for tokens whose owner has entries below (`AclGaps`); the exact conditions are `AclBelow.CompleteIff` and
  `AclBelow.EmptyAnchorCompleteIff` for users, `AclBelowTree.TokenCompleteIff` for tokens and
  `AclBelowTree.CompleteOnTreeIff` for every id.
- A reload does not keep entries of ids with a comma or a leading '@', of groups with a comma, colon, line feed or outer
  white space, and on paths with a colon or line feed (`AclReloadGaps.CommaIdLost`, `AclReloadGaps.ColonPathLost`); a
  group `a,b@pam` hands its role to the user `b@pam` (`AclReloadGaps.CommaGroupMisread`). Edits accept any role,
  but the parser refuses roles that are not registered, so a tree with such an entry does not come back
  (`AclReloadGaps.UnknownRoleLost`). A registered role with the empty name is lost where another role has the same
  holders (`AclReloadGaps.UnnamedRoleLost`).
  `AclFaithful.ReloadFaithfulIff` is the exact condition.
- An end record whose count, size or offset equals an escape value reads as escaped, for instance that of 65535 files
  (`ZipGap.CountReadsAsEscape`, `ZipRoundTrip.ReadUndoesWriteIff`).
- The documentation of `APTRepositoryHandle::new` says that every handle it builds round-trips; a known type beside an
  unknown component does not (`AptHandle.NewMayNotRoundTrip`, `AptHandle.NewRoundTripIff`).
- A namespace of a single component is limited to 255 characters, because the length check always counts a slash
  (`Namespace.LongComponentRefused`, `Namespace.GoodPush`).
- `parse_ns_and_snapshot` also accepts one extra slash before the snapshot (`Snapshot.SecondSlashAccepted`,
  `Snapshot.ParseIff`).
- Percent encoding leaves '%' alone, so `%41` comes out of a ticket as `A` (`Ticket.EscapeChanges`,
  `Ticket.DecodeEncodeIff`), and a negative time does not parse (`Ticket.NegativeTimeFails`, `Ticket.TimeRoundTripIff`).

One comment is wrong for every input: that of the blocking ACME client's `new_nonce` says that the directory request may
deliver a nonce, and that client never takes one from it (`AcmeNonce.AcmeClient.NewNonce`).

## Model

| member | source | states |
|---|---|---|
| `AclTree.SplitAclPathProper` | proxmox-access-control/src/acl.rs:17-30 | a split path has only non-empty components without slashes |
| `AclTree.RolesRule` | proxmox-access-control/src/acl.rs:377-405 | the roles on a path are the applicable part of the entry on the deepest prefix where that part is not empty, and nothing if there is none; only propagating roles apply above the last component |
| `AclTree.RolesAreNearest` | proxmox-access-control/src/acl.rs:377-405 | the top-down walk computes the same as the bottom-up search for the nearest applicable entry |
| `AclTree.RolesSame` | proxmox-access-control/src/acl.rs:377-405 | roles depend only on the id's entries along the path |
| `AclTree.FlattenJoined` | proxmox-access-control/src/acl.rs:377-391 | joining path chunks with slashes addresses the same node, so lookups depend on the flattened path only |
| `AclEdits.InsertEntries` | proxmox-access-control/src/acl.rs:229-237 | inserting changes the entry of the named id or group on the named path and no other entry of the tree, and creates exactly the nodes on the path |
| `AclEdits.ExistingEntries` | proxmox-access-control/src/acl.rs:243-263 | removing a role changes the named entry only and neither creates nor removes nodes |
| `AclEdits.RemovedEntries` | proxmox-access-control/src/acl.rs:268-278 | deleting a node removes exactly the entries at and below its path, except that the root stays |
| `AclEdits.RemovedAuthidEntries` | proxmox-access-control/src/acl.rs:144-149 | deleting an id removes its entries on all nodes and nothing else |
| `AclEdits.EditKeepsSound` | proxmox-access-control/src/acl.rs:151-175 | every edit keeps 'no access' alone in its entry and all components proper |
| `AclEdits.RunKeepsSound` | proxmox-access-control/src/acl.rs:128-306 | so does every sequence of edits |
| `AclEdits.EditFrame` | proxmox-access-control/src/acl.rs:229-306 | an edit leaves the roles of every other id, and on every path not at or below its own, unchanged |
| `AclEdits.RunFrame` | proxmox-access-control/src/acl.rs:229-306 | so does every sequence of edits that do not touch the id and path |
| `AclEdits.InsertTakesEffect` | proxmox-access-control/src/acl.rs:164-175 | an inserted role is in force on its path with its flag and without 'no access' beside it; inserted 'no access' is the only role |
| `AclEffects.InsertUserEffect` | proxmox-access-control/src/acl.rs:164-175 | role by role: the inserted role is in the entry with its flag, 'no access' and other roles drive each other out, the rest of the entry, every other entry and every node stay, and the nodes on the path are made |
| `AclEffects.InsertGroupEffect` | proxmox-access-control/src/acl.rs:151-162 | the same for a group |
| `AclEffects.DeleteUserEffect` | proxmox-access-control/src/acl.rs:256-263 | role by role: exactly the named role leaves the entry of the id on that path; every other entry and all nodes stay |
| `AclEffects.DeleteGroupEffect` | proxmox-access-control/src/acl.rs:243-250 | the same for a group |
| `AclEffects.DeleteNodeEffect` | proxmox-access-control/src/acl.rs:268-278 | nothing is left at or below a path other than the root, and everything else stays |
| `AclEffects.DeleteAuthidEffect` | proxmox-access-control/src/acl.rs:284-286 | no entry of the id is left, and every other entry and all nodes stay |
| `AclEffects.DeleteUndoesInsertIff` | proxmox-access-control/src/acl.rs:164-175 | deleting a role just inserted restores every entry if and only if the entry had neither the role nor 'no access', and nothing at all if the role is 'no access' |
| `AclPrivs.TokenLimited` | proxmox-access-control/src/acl.rs:475-482 | a token that is no superuser never has a privilege, or a propagated one, that its owner lacks |
| `AclPrivs.DeletedUserHasNothing` | proxmox-access-control/src/acl.rs:453-485 | after `DeleteAuthid` of a user neither the user nor a token of that user has any privilege on any path, superusers aside |
| `AclRules.PrivilegeIff` | proxmox-access-control/src/acl.rs:453-485 | for every id that is no superuser: a privilege is there if and only if a registered role that has it, with either flag, stands in the entry of the deepest prefix of the path that counts ('no access' shutting out all others) and, for a token, the owner has it; the same of the propagated ones with the flag |
| `AclRules.SuperuserPrivileges` | proxmox-access-control/src/acl.rs:454-461 | a superuser has the privileges of a registered admin role on every path |
| `AclRules.InsertGrants` | proxmox-access-control/src/acl.rs:468-472 | right after a role was inserted for a user, all its privileges are in force on that path, beside any other role and with either flag, and handed down if it propagates |
| `AclRules.NoAccessDenies` | proxmox-access-control/src/acl.rs:164-175 | right after 'no access' was inserted only the privileges of that role are left there, and none is handed down |
| `AclBelow.ChildPathAddress` | proxmox-access-control/src/acl.rs:177-192 | a child path addresses the node below the anchor, except that for the empty anchor an empty component comes first |
| `AclBelow.RolesBelow` | proxmox-access-control/src/acl.rs:377-405 | below an anchor the roles are inherited past it or come from an entry strictly below it |
| `AclBelow.PropagatedVsInherited` | proxmox-access-control/src/acl.rs:453-473 | propagated privileges never exceed what is handed down, and equal it unless the anchor holds only non-propagating roles |
| `AclBelow.AnyPrivsBelowSound` | proxmox-access-control/src/acl.rs:488-512 | a positive answer is right for every id and every anchor |
| `AclBelow.AnyPrivsBelowComplete` | proxmox-access-control/src/acl.rs:488-512 | a negative answer is right over all paths below a non-empty anchor whose entry is not just non-propagating, for users, superusers, and tokens whose owner has no entry below |
| `AclBelow.CompleteIff` | proxmox-access-control/src/acl.rs:488-512 | for a plain user and a non-empty anchor, negative answers are right if and only if the anchor's entry is empty or has a propagating role, or all inherited privileges occur on entries below |
| `AclBelow.EmptyAnchorCompleteIff` | proxmox-access-control/src/acl.rs:488-512 | for the empty anchor, if and only if no node grants more than the root hands down |
| `AclBelowTree.TreeDecides` | proxmox-access-control/src/acl.rs:453-485 | what any of the infinitely many paths below an anchor grants shows on the finitely many nodes of the tree |
| `AclBelowTree.AnswerIsNoticed` | proxmox-access-control/src/acl.rs:488-512 | the implementation finds exactly the anchor's propagated privileges and those of nodes below with an own entry, or what the root hands down for the empty anchor |
| `AclBelowTree.CompleteOnTreeIff` | proxmox-access-control/src/acl.rs:488-512 | for every id and every anchor: negative answers are right if and only if everything granted on the nodes of the tree is found |
| `AclBelowTree.TokenSources` | proxmox-access-control/src/acl.rs:475-482 | whatever a token is granted below an anchor is granted on a node with an entry of the token, handed down past the anchor, or due to a node with an entry of its owner |
| `AclBelowTree.TokenCompleteIff` | proxmox-access-control/src/acl.rs:488-512 | for a token that is no superuser and a non-empty anchor: negative answers are right if and only if everything handed down past the anchor, and everything granted on or handed down past a node with an entry of the owner, is found |
| `AclGaps.EmptyAnchorGap` | proxmox-access-control/src/acl.rs:488-512 | a tree on which the answer for the empty anchor is wrong |
| `AclGaps.NonPropagatingAnchorGap` | proxmox-access-control/src/acl.rs:488-512 | a tree on which an anchor with only a non-propagating role hides an inherited one |
| `AclGaps.TokenOwnerGap` | proxmox-access-control/src/acl.rs:488-512 | a tree on which a token's privilege below the anchor is missed |
| `AclLines.ParseLineIff` | proxmox-access-control/src/acl.rs:308-349 | on every tree the accepted lines are exactly those of five parts: the word acl, a flag 0 or 1, a path, valid ids or groups, and registered roles |
| `AclLines.LineMeaning` | proxmox-access-control/src/acl.rs:335-346 | an accepted line adds its roles to the entries of its ids and groups on its path, role by role and with 'no access' driving out what stands before it, and changes no other entry |
| `AclLines.LoadIff` | proxmox-access-control/src/acl.rs:617-647 | a text loads if and only if each of its lines is blank or accepted |
| `AclReload.LineReadsBack` | proxmox-access-control/src/acl.rs:308-349 | a written line parses into the path, ids and roles it was made of |
| `AclReload.LineAdvances` | proxmox-access-control/src/acl.rs:548-603 | parsing one written line, shared by several ids and roles, restores the roles it tells for all their holders and nothing else |
| `AclReload.ReloadEntries` | proxmox-access-control/src/acl.rs:517-615 | reloading a saved tree succeeds and restores every entry on every path, but for the role with the empty name where another role has the same holders, whatever empty nodes and root@pam entries it has |
| `AclLoaded.LoadedRecordable` | proxmox-access-control/src/acl.rs:308-349 | a tree loaded from any text holds only ids, groups, paths and roles the text form can record |
| `AclFaithful.ReloadKeepsRoles` | proxmox-access-control/src/acl.rs:517-615 | saving and reloading keeps the roles of every id but root@pam on every path, and all group entries |
| `AclFaithful.ReloadKeepsPrivs` | proxmox-access-control/src/acl.rs:453-485 | and, with root@pam a superuser, every privilege lookup |
| `AclFaithful.ReloadFaithfulIff` | proxmox-access-control/src/acl.rs:517-615 | the reload succeeds and keeps every entry of every group and of every id but root@pam if and only if every such entry belongs to a valid id without comma or leading '@' or to a group with a plain name, has known plain roles and stands on a path without colon and line feed, and no role with the empty name has the same holders on a node as another role |
| `AclReloadGaps.CommaIdLost` | proxmox-access-control/src/acl.rs:331-343 | a tree with an entry of a user whose name has a comma is not restored |
| `AclReloadGaps.ColonPathLost` | proxmox-access-control/src/acl.rs:308-313 | a tree with an entry on a path with a colon is not restored |
| `AclReloadGaps.UnknownRoleLost` | proxmox-access-control/src/acl.rs:335-339 | a tree with an entry of a role that is not registered is not restored |
| `AclReloadGaps.UnnamedRoleLost` | proxmox-access-control/src/acl.rs:571-585 | the role with the empty name, held beside another one, is lost |
| `AclReloadGaps.CommaGroupMisread` | proxmox-access-control/src/acl.rs:331-343 | the role of the group a,b@pam goes to the user b@pam on reload, and the group loses it |
| `AclCanonical.SameTreeLines` | proxmox-access-control/src/acl.rs:517-611 | the written lines depend on the entries alone, not on the nodes that happen to be there |
| `AclCanonical.SaveCanonical` | proxmox-access-control/src/acl.rs:613-615 | saving what was loaded from a saved tree gives the same text again |
| `AclDescent.Descend` | proxmox-access-control/src/acl.rs:219-237 | the loop passes the nodes on the path, creating missing ones or stopping at the first, and ends at the node of the path |
| `AclDescent.RemoveFromParent` | proxmox-access-control/src/acl.rs:268-278 | taking the last component out of its parent removes the subtree, and does nothing where there is no parent |
| `AclDescent.RemoveEverywhere` | proxmox-access-control/src/acl.rs:144-149 | the recursion over the children, in any order, removes the id on every node |
| `AclObject.SplitPath` | proxmox-access-control/src/acl.rs:17-30 | the loop returns the non-empty components in order |
| `AclObject.ExtractUserRoles` | proxmox-access-control/src/acl.rs:80-101 | the loop collects the applicable roles, 'no access' alone if it is there |
| `AclObject.GetNode` | proxmox-access-control/src/acl.rs:209-217 | the nested loops find the node of the flattened path |
| `AclObject.FindRoles` | proxmox-access-control/src/acl.rs:377-405 | the nested loops compute the roles of the flattened path |
| `AclObject.LookupPrivsDetails` | proxmox-access-control/src/acl.rs:453-485 | the specified privileges, limited by a token's owner; for a user that is no superuser exactly the bits of the registered roles of the deciding entry |
| `AclObject.GetChildPaths` | proxmox-access-control/src/acl.rs:177-192 | the recursion lists exactly the nodes below with an applicable entry |
| `AclObject.ComputeAnyPrivsBelow` | proxmox-access-control/src/acl.rs:488-512 | the loop over child paths returns the specified answer |
| `AclObject.AclTreeObject.InsertUserRole` | proxmox-access-control/src/acl.rs:302-306 | the tree becomes the edited tree and stays sound; the entry gains the role as told role by role, and all else stays |
| `AclObject.AclTreeObject.InsertGroupRole` | proxmox-access-control/src/acl.rs:292-300 | the same for groups |
| `AclObject.AclTreeObject.DeleteUserRole` | proxmox-access-control/src/acl.rs:256-263 | exactly the role leaves the entry of the id on its path; all else stays, and the tree stays sound |
| `AclObject.AclTreeObject.DeleteGroupRole` | proxmox-access-control/src/acl.rs:243-250 | the same for a group's role |
| `AclObject.AclTreeObject.DeleteNode` | proxmox-access-control/src/acl.rs:268-278 | nothing is left at or below a path other than the root; all else stays, and the tree stays sound |
| `AclObject.AclTreeObject.DeleteAuthid` | proxmox-access-control/src/acl.rs:284-286 | no entry of the id is left; all else stays, and the tree stays sound |
| `AclObject.AclTreeObject.ParseAclLine` | proxmox-access-control/src/acl.rs:308-349 | a line is accepted, assigned or refused with the specified error |
| `AclObject.LoadTree` | proxmox-access-control/src/acl.rs:617-647 | loading a text gives the specified tree, and a sound one, or the specified error |
| `AclWriter.RoleHolders` | proxmox-access-control/src/acl.rs:518-546 | the two maps of a node give for every role exactly its holders without and with the propagate flag |
| `AclWriter.GroupByList` | proxmox-access-control/src/acl.rs:548-566 | roles are grouped by equal holder lists, none lost |
| `AclWriter.WriteRoleList` | proxmox-access-control/src/acl.rs:571-585 | 'no access' swallows the other roles of its line, else all roles are listed in order |
| `AclWriter.WriteLists` | proxmox-access-control/src/acl.rs:587-603 | one line per holder list, in order |
| `AclWriter.WriteNodeConfig` | proxmox-access-control/src/acl.rs:517-611 | the recursion writes the lines of all nodes in key order |
| `Ordering.LessIff` | proxmox-acme/src/json.rs:26 | the order of texts: the first different code point decides, and a text comes after its prefixes |
| `AuthId.ParsePrintAuthid` | proxmox-auth-api/src/types.rs:603-642 | parsing the text of a valid id gives it back, even with '@' or '!' in the user name |
| `AuthId.PrintParseAuthid` | proxmox-auth-api/src/types.rs:612-642 | every accepted text is the text of the valid id it parses to |
| `AuthId.PrintedLayout` | proxmox-auth-api/src/types.rs:612-642 | the last '@' ends the user name and the realm ends the user id, whatever the user name contains |
| `AuthId.TryFromString` | proxmox-auth-api/src/types.rs:644-677 | the truncating parser accepts what `FromStr` accepts, with the same result |
| `AuthId.UseridRoundTrip` | proxmox-auth-api/src/types.rs:485-508 | a valid user id parses back from its text |
| `AuthId.UseridEqualityIsTextEquality` | proxmox-auth-api/src/types.rs:532-548 | comparing a valid user id with a text decides identity |
| `Bytes.DecodeEncode` | proxmox-compression/src/zip.rs:186-200 | a packed little-endian record reads back as its field values |
| `Bytes.ByteAt` | proxmox-compression/src/zip.rs:186-200 | the bytes of a field are written least significant first |
| `ZipRoundTrip.ResolveEntry` | proxmox-compression/src/zip.rs:329-401 | escape values and the ZIP64 extra field of a directory entry give back its 64-bit sizes and offset, in all combinations |
| `ZipRoundTrip.CentralReadsBack` | proxmox-compression/src/zip.rs:329-401 | a directory entry reads back with name, checksum, sizes and offset |
| `ZipRoundTrip.DirectoryReadsBack` | proxmox-compression/src/zip.rs:602-625 | the directory reads back as the entries in order |
| `ZipRoundTrip.EndReadsBack` | proxmox-compression/src/zip.rs:528-600 | the end records give back count, size and offset of the directory, with and without ZIP64 records |
| `ZipRoundTrip.ReadUndoesWrite` | proxmox-compression/src/zip.rs:528-625 | reading a written archive gives exactly its entries in order |
| `ZipRoundTrip.ReadUndoesWriteIff` | proxmox-compression/src/zip.rs:528-600 | if and only if no value of an end record without ZIP64 records equals an escape, or bytes that happen to form a locator lead to a record that stands in for the missing one |
| `ZipGap.CountReadsAsEscape` | proxmox-compression/src/zip.rs:528-600 | 65535 empty files make an archive that does not read back |
| `ZipRoundTrip.DataReadsBack` | proxmox-compression/src/zip.rs:263-327 | behind each entry's offset stand a local header of the same name, its data and a matching descriptor |
| `ZipEncoder.Encoder.constructor` | proxmox-compression/src/zip.rs:484-490 | an encoder starts empty and valid |
| `ZipEncoder.Encoder.AddEntry` | proxmox-compression/src/zip.rs:492-526 | an entry is appended with the offset of its local header, the checksum, the number of bytes read and the number written of its content, all zero without content, and its other fields unchanged; `byte_count` is the number of bytes written; a failing write loses the target and the entry |
| `ZipEncoder.Encoder.Finish` | proxmox-compression/src/zip.rs:602-625 | the written bytes become the whole archive; after a failure or a first call every call fails |
| `ZipEncoder.WriteEnd` | proxmox-compression/src/zip.rs:528-600 | the casts and branches write the specified end records |
| `ZipEncoder.FinishedArchiveReadsBack` | proxmox-compression/src/zip.rs:492-625 | whatever was added and finished reads back, entries and data |
| `ZipEncoder.ArchiveTells` | proxmox-compression/src/zip.rs:492-526 | what a reader finds is what the items say, field by field and bit by bit |
| `ZipEncoder.WriteArchive` | proxmox-compression/src/zip.rs:492-625 | adding any sequence of items and finishing succeeds exactly when no write fails, and then a reader finds exactly these items in order: name, time, date, Unix mode and directory bit, method, flag bits 3 and 11, checksum and sizes of the content, and behind each its data |
| `MtimeCache.RunsLinearizable` | proxmox-access-control/src/acl.rs:682-732 | in every interleaving every call returns a version current at some instant of that call, if the file is never recreated |
| `MtimeCache.LinearizableIff` | proxmox-access-control/src/acl.rs:682-732 | this holds in all runs if and only if no file is created after it was missing |
| `MtimeCache.RecreationBreaks` | proxmox-access-control/src/user.rs:60-108 | a run in which a recreated file is hidden by a stale load |
| `MtimeCache.HitSharesStat` | proxmox-access-control/src/acl.rs:697-712 | for a file that exists throughout, a hit comes from a load whose stat saw the version the call's own stat saw |
| `MtimeCache.HitMayBeNewer` | proxmox-access-control/src/acl.rs:682-732 | a run in which a hit is newer than the call's stat |
| `MtimeCache.HitsExactIff` | proxmox-access-control/src/user.rs:60-108 | every hit in every run is the version of the call's stat if and only if the file is never replaced |
| `UserInfoCache.RunsFresh` | proxmox-access-control/src/cached_user_info.rs:30-73 | with any loads that return a version current during the load, a call begun after a save returned yields that save or a later one |
| `ConfigCaches.RunRefines` | proxmox-access-control/src/cached_user_info.rs:58-61 | every interleaving in which the loads run through the mtime caches of both files is one of those |
| `ConfigCaches.RunsFresh` | proxmox-access-control/src/cached_user_info.rs:30-73 | in every interleaving of readers, of the steps of both mtime caches, of saves and of the clock, a call begun after a save returned yields that save or a later one |
| `ConfigCaches.RunsRecent` | proxmox-access-control/src/cached_user_info.rs:44-57 | and, for any files, the load behind a hit began less than five seconds before the call's clock reading |
| `ConfigCaches.UnreliableGenerationBreaks` | proxmox-access-control/src/cached_user_info.rs:63-72 | a run with a generation unreadable once that returns data older than a finished save |
| `ConfigRecreation.RecreationBreaks` | proxmox-access-control/src/acl.rs:722-729 | a run in which a file created after it was missing is hidden from a call begun after its save returned |
| `ConfigRecreation.FreshExactly` | proxmox-access-control/src/cached_user_info.rs:30-73 | freshness holds in all runs if and only if neither file is created after it was missing, and the generation is readable always or never or no file is ever replaced |
| `AcmeAnswers.ValidatedIff` | proxmox-acme-api/src/certificate_helpers.rs:206-234 | validation succeeds if and only if the request is accepted and any number of pending authorizations is followed by a valid one |
| `AcmeAnswers.IssuedIff` | proxmox-acme-api/src/certificate_helpers.rs:144-204 | a certificate is issued if and only if the order is seen processing, or pending or ready with an accepted finalize request, any number of times, with at most five refused ones while pending, and then valid, and its certificate comes |
| `AcmeAnswers.OutcomeIff` | proxmox-acme-api/src/certificate_helpers.rs:36-142 | an order returns a certificate if and only if it is placed, each of its authorizations is valid or is validated with a plugin that was set up, and the order is then issued |
| `AcmeOrder.AppendKeepsDiscipline` | proxmox-acme-api/src/certificate_helpers.rs:79-142 | which event may follow a disciplined log |
| `AcmeOrder.Session.RequestValidation` | proxmox-acme-api/src/certificate_helpers.rs:206-234 | succeeds if and only if the answers are an accepted request, any number of pending authorizations and a valid one, and leaves the answers after these; the validation request comes first |
| `AcmeOrder.Session.Authorize` | proxmox-acme-api/src/certificate_helpers.rs:79-125 | an authorization is skipped or validated; a plugin set up is torn down whatever the outcome |
| `AcmeOrder.Session.FinalizeOrder` | proxmox-acme-api/src/certificate_helpers.rs:144-204 | returns a certificate if and only if the answers issue it as told above, and fetches it only after the order was seen valid |
| `AcmeOrder.Session.OrderCertificate` | proxmox-acme-api/src/certificate_helpers.rs:36-142 | against any server: finalize only after all authorizations were seen valid, a certificate only from a valid order, validation only while the plugin is set up, one teardown per setup; and a certificate is returned if and only if the answers have the form told above (section 7.4 of RFC 8555) |
| `AcmeNonce.Judge` | proxmox-acme/src/async_client.rs:380-465 | a reply is accepted exactly when it is readable and expected, and is a retryable badNonce exactly when it also delivers a nonce |
| `AcmeNonce.ReuseIff` | proxmox-acme/src/async_client.rs:405-417 | two signed requests share a nonce if and only if no reply in between delivered one, given a server that issues none twice |
| `AcmeNonce.NoNonceTwice` | proxmox-acme/src/client.rs:187-274 | if every signed request is answered with a fresh nonce, no nonce is used twice in the client's life (section 6.5 of RFC 8555) |
| `AcmeNonce.AcmeClient.Execute` | proxmox-acme/src/client.rs:187-230 | a request uses the nonce held, and the reply's nonce, if taken, is the one held next; the asynchronous client takes every nonce, the blocking one that of every readable signed reply |
| `AcmeNonce.PostsRetry` | proxmox-acme/src/async_client.rs:571-587 | at most as many signed requests as attempts are left; each but the last was refused with badNonce and is followed by one with the nonce of that refusal; success exactly when the last was accepted |
| `AcmeNonce.SignedShape` | proxmox-acme/src/async_client.rs:217-268 | a signed operation sends at most two unsigned requests and then at most three signed ones that retry each other |
| `AcmeRuns.SignedSucceedsIff` | proxmox-acme/src/async_client.rs:217-268 | a signed operation succeeds if and only if a directory and a nonce are there or are answered well, and then at most two attempts are refused with badNonce and a nonce before one is accepted |
| `AcmeRuns.SignedMeets` | proxmox-acme/src/client.rs:511-548 | and then it sends the directory and new-nonce requests that are missing, and the attempts, each with the nonce of the refusal before it |
| `AcmeRuns.FreshClientSucceeds` | proxmox-acme/src/client.rs:511-548 | a fresh client and a well-behaved server: directory, new-nonce and one signed request with that nonce |
| `AcmeNonce.AcmeClient.GetDirNonce` | proxmox-acme/src/async_client.rs:517-531 | the directory and new-nonce requests that are needed, none if both are known, and the nonce they lead to |
| `AcmeNonce.AcmeClient.NewNonce` | proxmox-acme/src/client.rs:359-370 | always asks the new-nonce URL once there is a directory, and holds the nonce it got |
| `AcmeNonce.AcmeClient.SignedPost` | proxmox-acme/src/client.rs:511-548 | the retry loop sends the requests of the specified operation and returns its reply; every request uses the nonce held, and the nonce of the accepted reply is held afterwards |
| `CanonicalJson.ToHashCanonical` | proxmox-acme/src/json.rs:6-43 | the hasher is fed the canonical text, in whatever order the maps yield their keys |
| `CanonicalJson.HashMembers` | proxmox-acme/src/json.rs:26-40 | the members named by a key list, separated by commas |
| `CanonicalJsonReader.ReadCanonical` | proxmox-acme/src/json.rs:6-43 | a reader of JSON (RFC 8259) without white space and with names in increasing order gives back the value from its canonical stream, at every depth and whatever follows |
| `CanonicalJsonReader.Unique` | proxmox-acme/src/json.rs:6-43 | canonical texts are uniquely decodable: equal streams come from equal values and leave equal rests, at every depth |
| `CanonicalJsonReader.Injective` | proxmox-acme/src/json.rs:6-43 | two values feed the same stream only if they are equal (section 3 of RFC 7638) |
| `CanonicalJsonReader.RsaStream` | proxmox-acme/src/key.rs:45-49 | the stream of an RSA key is the text of section 3.1 of RFC 7638 |
| `Namespace.GoodPush` | pbs-api-types/src/datastore.rs:1003-1034 | a push is accepted if and only if the result is a valid namespace: at most 7 safe components and 256 characters, 255 for one |
| `Namespace.LongComponentRefused` | pbs-api-types/src/datastore.rs:1021-1023 | a single component of 256 characters is refused although the name is not too long |
| `Namespace.PathLength` | pbs-api-types/src/datastore.rs:998-1000 | the path is three characters per level longer than the name |
| `Namespace.PartsOfPrinted` | pbs-api-types/src/datastore.rs:1120-1134 | the components of a printed name are those of the namespace |
| `Namespace.PathOfPrinted` | pbs-api-types/src/datastore.rs:1158-1168 | reading a printed path gives the components back |
| `Namespace.PathForm` | pbs-api-types/src/datastore.rs:894-915 | only printed paths are read, with at most one trailing slash |
| `Namespace.MapBack` | pbs-api-types/src/datastore.rs:1048-1067 | mapping a prefix keeps the distance to it, and mapping back restores the namespace |
| `Namespace.ContainsIff` | pbs-api-types/src/datastore.rs:1112-1117 | the distance is the number of components below the prefix |
| `Namespace.BackupNamespace.RecalculateLen` | pbs-api-types/src/datastore.rs:963-968 | the loop computes the length of the name |
| `Namespace.BackupNamespace.PathLen` | pbs-api-types/src/datastore.rs:998-1000 | the computed path length is that of the printed path |
| `Namespace.BackupNamespace.Push` | pbs-api-types/src/datastore.rs:1003-1034 | appends the component exactly when the result is valid; the cached length stays the printed one |
| `Namespace.BackupNamespace.Pop` | pbs-api-types/src/datastore.rs:928-934 | undoes a push, the cached length included |
| `Namespace.BackupNamespace.Parent` | pbs-api-types/src/datastore.rs:937-946 | a valid copy without the last component |
| `Namespace.BackupNamespace.New` | pbs-api-types/src/datastore.rs:879-890 | accepts exactly the names of valid namespaces and prints back as the name |
| `Namespace.BackupNamespace.FromPath` | pbs-api-types/src/datastore.rs:894-915 | accepts exactly the readable paths of valid namespaces |
| `Namespace.BackupNamespace.MapPrefix` | pbs-api-types/src/datastore.rs:1048-1067 | gives the target followed by the rest, exactly when the source is a prefix and the result is valid |
| `Snapshot.DirRoundTrip` | pbs-api-types/src/datastore.rs:1451-1476 | a printed snapshot is read back |
| `Snapshot.ParseDirIff` | pbs-api-types/src/datastore.rs:1451-1466 | accepted are exactly a type name, a safe id and a readable time of the right shape, with slashes between |
| `Snapshot.NsRoundTrip` | pbs-api-types/src/datastore.rs:1981-2000 | a printed namespace and snapshot are read back, components named `ns` included |
| `Snapshot.ParseIff` | pbs-api-types/src/datastore.rs:1981-1991 | accepted are exactly the paths of valid namespaces with one or two slashes and a snapshot text of type, safe id and readable time behind |
| `Snapshot.SecondSlashAccepted` | pbs-api-types/src/datastore.rs:1981-1991 | a text with two slashes before the snapshot is accepted |
| `AptHandle.PrintParse` | proxmox-apt-api-types/src/lib.rs:788-830 | exactly the handle grammar is accepted, and printing the result gives the text back |
| `AptHandle.ParsePrintIff` | proxmox-apt-api-types/src/lib.rs:788-830 | parsing a printed handle returns it if and only if it is canonical |
| `AptHandle.ParsedCanonical` | proxmox-apt-api-types/src/lib.rs:798-830 | parsing makes only canonical handles |
| `AptHandle.ScanFinds` | proxmox-apt-api-types/src/lib.rs:700-708 | at most one known component ends a text, so the order of the table does not matter |
| `AptHandle.NewMayNotRoundTrip` | proxmox-apt-api-types/src/lib.rs:721-745 | a handle built by `new` that reads back as another one |
| `AptHandle.NewRoundTripIff` | proxmox-apt-api-types/src/lib.rs:721-745 | a handle built by `new` reads back if and only if its unknown parts are tokens not taken for known ones, and an unknown component has no software beside it |
| `AptHandle.NewPrints` | proxmox-apt-api-types/src/lib.rs:721-745 | its text is the name of the software, unless that is a host product, and of the component, in lower case |
| `Ticket.DecodeEncodeIff` | proxmox-auth-api/src/ticket.rs:91-98 | percent decoding undoes encoding if and only if the text has no '%' followed by two hexadecimal digits |
| `Ticket.EscapeChanges` | proxmox-auth-api/src/ticket.rs:91-98 | the text %41 comes back as A |
| `Ticket.TimeRoundTripIff` | proxmox-auth-api/src/ticket.rs:204-210 | the time field reads back if and only if the time is not negative |
| `Ticket.NegativeTimeFails` | proxmox-auth-api/src/ticket.rs:204-210 | the time -1 does not parse |
| `Ticket.ParseIff` | proxmox-auth-api/src/ticket.rs:185-230 | read as a ticket are exactly the texts prefix:data:time::signature whose parts decode, parse and are UTF-8 |
| `Ticket.ParseSignedIff` | proxmox-auth-api/src/ticket.rs:185-230 | parsing a signed ticket gives back prefix, data, time and signature if and only if prefix and data contain no '%' with two hexadecimal digits and the time is not negative |
| `Ticket.SignedIff` | proxmox-auth-api/src/ticket.rs:101-108 | the signed text determines the encoded prefix and data, the time and the additional data, whether present or not |
| `Ticket.SignedDetermines` | proxmox-auth-api/src/ticket.rs:101-108 | and prefix and data themselves where they have no escapes in them |
| `Ticket.EncodingCollides` | proxmox-auth-api/src/ticket.rs:91-98 | a text that needs escapes is signed like its own encoding |
| `Ticket.TicketObject.Sign` | proxmox-auth-api/src/ticket.rs:118-134 | returns the ticket's text with the signature over it and stores the signature; a failure changes nothing |
| `Ticket.AcceptedIff` | proxmox-auth-api/src/ticket.rs:138-182 | a signed ticket read back is accepted with the same key, prefix and additional data if and only if its age is from -300 to 7200 seconds |
| `Ticket.VerifyIff` | proxmox-auth-api/src/ticket.rs:138-182 | for every ticket: it is accepted if and only if it has the prefix, its signature is valid for its text and the additional data, its age is from -300 to 7200 seconds, and its data parses |
| `Ticket.AcceptedWasIssued` | proxmox-auth-api/src/ticket.rs:138-182 | if the keyring accepts only signatures it made for the same text of an issued ticket, an accepted ticket was issued with the same encoded prefix and data, time and additional data |
| `Ticket.AcceptedIffIssued` | proxmox-auth-api/src/ticket.rs:138-182 | and for texts without escapes exactly the issued tickets are accepted, while their age is right |
| `Ticket.ChangedIsRefused` | proxmox-auth-api/src/ticket.rs:138-182 | so a signature used with another prefix, data, time or other additional data is refused |
| `Broadcast.StepKeepsInv` | proxmox-async/src/broadcast_future.rs:26-64 | every step keeps: nobody queued after the result, everybody queued and unserved before it |
| `Broadcast.ExactlyOnce` | proxmox-async/src/broadcast_future.rs:101-128 | in every run the source is started exactly when somebody listens and once, and every listener gets the one result exactly once |
| `Broadcast.BroadcastFuture.NotifyListeners` | proxmox-async/src/broadcast_future.rs:26-44 | the popping loop stores the result and serves every queued sender once |
| `Broadcast.BroadcastFuture.Listen` | proxmox-async/src/broadcast_future.rs:106-128 | takes the source if it is still there, then queues or answers |

## Left out

- ZIP: `ZipEntry::new` and its path handling, `epoch_to_dos` (dates and times are opaque 16-bit fields), Deflate (an entry's compressed data is given) and `zip_directory`.
- AclBelow.CompleteIff: stated for users that are neither tokens nor superusers; AclBelowTree.TokenCompleteIff covers tokens and AclBelowTree.CompleteOnTreeIff every id.
- AclBelow.EmptyAnchorCompleteIff: likewise; AclBelowTree.CompleteOnTreeIff covers every id.
- AclObject.AclTreeObject.ParseAclLine: of the tree a failing line leaves behind only soundness is stated; the loader discards it.
- ACL: which node a failing line had created, file permissions, `check_privs` and its messages.
- Caches: the wrap-around of the generation counter, a clock that goes back, and files rewritten within one nanosecond stamp.
- UserInfoCache.RunsFresh: the loads are any that return a version current during the load; ConfigCaches.RunsFresh is the statement about the mtime caches.
- ACME: lowercasing of domains, creation of the CSR, the plugins' own work, account registration beyond its retry loop.
- AcmeNonce.AcmeClient.SignedPost: stands for all six signed operations of each client; what each does with the accepted reply is not modelled.
- Canonical JSON: the hash itself; that distinct numbers print as distinct tokens.
- Namespaces: the fallback backup type of the `enum-fallback` feature, `check_max_depth`, ACL paths, backup groups and their filters; calendar arithmetic of time stamps.
- APT: `from_repos`, Debian code names, the debug assertions of `new` on payloads.
- Tickets: the key types, `ticket_info`, and the interior of base64 and UTF-8 validation.
- Broadcast: a source that panics or a listener that goes away before the result.
- The API schema macros, daemons, sockets, the HTTP client and other I/O plumbing of the workspace: they would only add easy members.
