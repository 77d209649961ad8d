# StorySage front end: biography editing, export and form logic in Dafny

This project models the in-memory logic of the StorySage web front end (a
React/TypeScript application) and proves properties of it. Nothing here runs
the application. The model covers:

- **The biography document.** A biography is a tree of sections. Each sibling
  collection (`Record<string, Section>`) is a sequence of `Entry(key, section)`
  pairs in insertion order. `Flatten` is the pre-order walk that the export,
  the parent lookup and the save check all follow (`biography_types.dfy`).
- **The shared helpers of `biographyUtils`** (`biography_utils.dfy`):
  - the edit-log compactor `addOrUpdateEdit`;
  - the segment-wise numeric sort of a sibling collection, with its comparator as a loop method;
  - the pre-order parent lookup;
  - the two dotted-number validators, as loop methods.
- **The tree edits of the biography page** (`tree_edits.dfy`):
  - rename by map key, add under a parent key, and delete by section id;
  - each as a specification function, plus a loop method proved equal to it;
  - and the pre-order list of section numbers that the save check compares against.
- **The biography page's edit session** (`edit_session.dfy`). A class holds the
  four pieces of page state (`biography`, `editMode`, `editedBiography`,
  `edits`) and has one method per handler. Every method keeps the edit log
  compacted.
- **The two export projections** (`export.dfy`):
  - the Markdown text;
  - the PDF content-block list with its font sizes;
  - the download file name;
  - the heading-level clamp of the page's section view.
- **The smaller state machines and validators:**
  - the topic-selection dialog (`topic_selection.dfy`);
  - the user-id and password validators of the sign-up and sign-in forms (`users.dfy`);
  - the endpoint URL builder (`api_config.dfy`);
  - the authentication and session stores (`stores.dfy`).

Some JavaScript behaviour is written out explicitly:
- `split` on one character and `join` (`strings.dfy`);
- the `\s`/`trim` white-space class;
- ASCII `toLowerCase`;
- `replace(/\s+/g, '_')`;
- `Number(segment) || 0` on digit strings;
- the truthiness tests: `if (found)` treats an empty key as "not found", and `if (inputErrors[i])` ignores an empty message.

Two copies of some code exist in the application, and each copy is modelled once:
- The earlier export code in `src/components/Biography/BiographyPage.tsx`
  builds the same Markdown, PDF list and file names as `exportUtils`, so the
  export members describe both copies:
  - its `sectionToMarkdown` (lines 12-25) and its Markdown export (178-187);
  - its PDF list (93-133, with `collectSection` at 109-129);
  - its file names (164, 194).
- The page's local `addOrUpdateEdit`
  (src/components/biography/BiographyPage.tsx:13-25) and its local
  `findParentSection` (204-217) are the same functions as in
  `biographyUtils`.
- The sign-in form's `validateUserId` (src/components/user/Login.tsx:42-50)
  is the same validator as the sign-up form's.

Points where the code behaves differently from what its names suggest:
- The save-time duplicate check collects section numbers from the working copy
  `editedBiography` (src/components/biography/BiographyPage.tsx:80). It does
  not use the biography as it was before editing. The working copy already
  holds every section added in the session. So a save is refused whenever an
  added section is still present with its number: `SaveAfterAddIsRefused`
  proves this for every tree.
- A successful save keeps the working copy. If there is no working copy, it
  sets `biography` to nothing.
- Rename finds the section by map key and changes only its title.
- Delete matches on `section.id`.
- Only four endpoint names are in the table (src/config/index.ts:13-18). The sign-up form asks for `'REGISTER'` (src/components/user/Register.tsx:23), so its request goes to the base URL followed directly by `REGISTER`, with no `/`. The transcription and text-to-speech requests do the same. `UnknownEndpointVerbatim` states this.

## Model

| member | source | states |
|---|---|---|
| BiographyTypes.NumberOfFullTitle | src/components/biography/BiographyPage.tsx:174 | the number of a title built as `number + " " + name` is `number`, when the number has no space |
| BiographyTypes.TraversalSizes | src/types/biography.ts:1-9 | the pre-order walk visits each section once: as many visits as ids and as keys |
| BiographyTypes.FlattenAppend | src/types/biography.ts:9 | walking two consecutive parts of a collection is walking each in turn |
| BiographyUtils.AddOrUpdateEdit | src/utils/biographyUtils.ts:3-15 | the new edit is always last; a comment is appended to the unchanged log; any other edit keeps exactly the earlier entries that are not of its kind on its section |
| BiographyUtils.DropSameTarget | src/utils/biographyUtils.ts:10-12 | the filter keeps exactly the entries of another kind or another section, and is never longer |
| BiographyUtils.DropSameTargetCounts | src/utils/biographyUtils.ts:10-12 | each kept entry occurs as often as before, each superseded entry not at all |
| BiographyUtils.DropSameTargetAppend | src/utils/biographyUtils.ts:10-12 | the filter works entry by entry, so order is kept: filtering a concatenation is concatenating the filtered parts |
| BiographyUtils.DropSameTargetNothingToDrop | src/utils/biographyUtils.ts:10-12 | a log with nothing of the same kind on the same section is left unchanged |
| BiographyUtils.DropSameTargetKeepsCompacted | src/utils/biographyUtils.ts:10-12 | filtering keeps a log compacted (no non-comment edit followed by another of its kind on its section) |
| BiographyUtils.AddOrUpdateEditKeepsCompacted | src/utils/biographyUtils.ts:3-15 | adding any edit keeps a compacted log compacted |
| BiographyUtils.AddOrUpdateEditIdempotent | src/utils/biographyUtils.ts:10-14 | adding the same non-comment edit twice is the same as adding it once |
| BiographyUtils.RenameTwiceKeepsLast | src/utils/biographyUtils.ts:10-14 | two renames of one section leave only the later rename |
| BiographyUtils.CommentTwiceKeepsBoth | src/utils/biographyUtils.ts:5-7 | two comments on one section are both kept, in order |
| BiographyUtils.SectionKey | src/utils/biographyUtils.ts:21-22 | the comparison key has one value per dot-separated part of the section number |
| BiographyUtils.SectionKeyOfDottedNumber | src/utils/biographyUtils.ts:21-22 | a title whose number is written from decimal segment values, such as "1.10 Name", keys back to exactly those values ([1, 10]), so segments are compared as numbers and not as text |
| Strings.SegmentValue | src/utils/biographyUtils.ts:21-27 | `Number(segment)` with NaN read as 0 is the decimal value of a digit string (0 for the empty one; exact for values below 2^53, where a double holds every integer) and 0 for anything else |
| BiographyUtils.CompareSectionNumbers | src/utils/biographyUtils.ts:20-31 | the comparator loop returns the value of the segment-wise comparison (missing or non-numeric segments count as 0) |
| BiographyUtils.CompareKeysFirstDifference | src/utils/biographyUtils.ts:24-30 | the comparison is 0 exactly when all segments agree; otherwise it is the difference at the first segment that differs |
| BiographyUtils.CompareKeysReflexive | src/utils/biographyUtils.ts:20-31 | a number compares equal to itself |
| BiographyUtils.CompareKeysAntisymmetric | src/utils/biographyUtils.ts:20-31 | swapping the operands negates the comparison |
| BiographyUtils.CompareKeysTransitive | src/utils/biographyUtils.ts:20-31 | "sorts no later than" is transitive, so the comparator is a consistent order |
| BiographyUtils.SortSectionsByNumber | src/utils/biographyUtils.ts:17-33 | the sorted collection is a permutation of the input entries, keys included |
| BiographyUtils.SortSectionsByNumberSorted | src/utils/biographyUtils.ts:17-33 | the sorted collection is in nondecreasing numeric order |
| BiographyUtils.SortSectionsByNumberKeepsSorted | src/utils/biographyUtils.ts:17-33 | a collection already in order is returned unchanged |
| BiographyUtils.SortSectionsByNumberStable | src/utils/biographyUtils.ts:17-33 | the sort is stable: for every number, the entries whose number compares equal to it come out in the order they went in |
| BiographyUtils.ParentNumberOfSegments | src/utils/biographyUtils.ts:37 | the parent number is the target with its last segment dropped, and is empty for a one-segment target |
| BiographyUtils.FindParentSectionTopLevel | src/utils/biographyUtils.ts:37-38 | a target without a dot has no parent |
| BiographyUtils.FirstNumbered | src/utils/biographyUtils.ts:40-48 | the reference search: nothing exactly when no visited section carries the number, else the key of the first one in the walk |
| BiographyUtils.FindSectionNumberIsFirstInPreOrder | src/utils/biographyUtils.ts:40-48 | with non-empty keys, the recursive lookup returns the key of the first section in pre-order (a node before its subsections) whose number matches, or nothing |
| BiographyUtils.FindSectionNumberFindsKey | src/utils/biographyUtils.ts:40-48 | a key the lookup returns is a key stored in the tree |
| BiographyUtils.IsValidSubsectionNumber | src/utils/biographyUtils.ts:52-70 | true exactly when the child has one more segment, repeats every parent segment, and ends in a numeric segment |
| BiographyUtils.IsValidPathFormat | src/utils/biographyUtils.ts:72-99 | true exactly when the number is empty, or has at most three segments, the first a non-empty digit string and every later one numeric |
| TreeEdits.UpdateSectionTitle | src/components/biography/BiographyPage.tsx:140-155 | the loop over the copied collection returns the rename-by-key result |
| TreeEdits.RenameByKeyChangesOnlyTitle | src/components/biography/BiographyPage.tsx:140-155 | with unique keys, the pre-order list of (key, id, title, content, depth) is unchanged except that the section stored under the key gets the new title |
| TreeEdits.RenameByKeyAbsent | src/components/biography/BiographyPage.tsx:143-154 | when no key matches, the tree is unchanged |
| TreeEdits.PutEntry | src/components/biography/BiographyPage.tsx:225-228 | `{ ...s, [key]: section }` appends the new entry when the key is new, and otherwise replaces the entry at the key's position, leaving every other entry where it was |
| TreeEdits.UpdateSubsections | src/components/biography/BiographyPage.tsx:232-254 | the add-under-parent loop returns the specification result |
| TreeEdits.UpdateEachSubsections | src/components/biography/BiographyPage.tsx:246-251 | the inner loop over every entry returns the specification result |
| TreeEdits.AddUnderReaches | src/components/biography/BiographyPage.tsx:232-254 | when the parent key is in the tree, the new section's id and number end up in it |
| TreeEdits.AddUnderGrows | src/components/biography/BiographyPage.tsx:232-254 | with unique keys, a present parent and a fresh key, the number of sections grows by exactly the size of the new subtree |
| TreeEdits.AddUnderAbsent | src/components/biography/BiographyPage.tsx:232-254 | when the parent key is nowhere in the tree, the tree is unchanged |
| TreeEdits.AddUnderKeepsSiblingKeys | src/components/biography/BiographyPage.tsx:235-251 | the collection the search starts from keeps the same keys in the same order |
| TreeEdits.FindByKey | src/components/biography/BiographyPage.tsx:235 | a lookup by key finds a section exactly when the key is stored somewhere in the tree |
| TreeEdits.FindByKeySort | src/components/biography/BiographyPage.tsx:185-201 | with unique keys, sorting a collection changes no lookup by key |
| TreeEdits.AddUnderReceives | src/components/biography/BiographyPage.tsx:232-254 | with unique keys and the parent key in the tree, the section stored under the parent key keeps every other field, and its subsections become the old ones with the new entry put in (`{ ...subsections, [id]: section }`) and sorted by number |
| TreeEdits.AddUnderKeepsOthers | src/components/biography/BiographyPage.tsx:232-254 | with keys unique across the tree and the new subtree, every other stored key still finds its section, with every field but the subsections unchanged and the same subsection keys in the same order |
| TreeEdits.SortSectionsByNumberIds | src/components/biography/BiographyPage.tsx:185-201 | sorting keeps the same sections, subtrees included: the same number of ids and the same set of ids |
| TreeEdits.DeleteSection | src/components/biography/BiographyPage.tsx:279-294 | the loop returns the delete-by-id result |
| TreeEdits.DeleteByIdRemovesSubtree | src/components/biography/BiographyPage.tsx:279-294 | with unique ids, exactly the sections outside the deleted section's subtree remain |
| TreeEdits.DeleteByIdKeepsOthers | src/components/biography/BiographyPage.tsx:279-294 | with unique ids, the pre-order list of (key, id, title, content, depth) after the delete is the list before it with exactly the deleted subtree's sections removed: every other section keeps its place, fields and depth |
| TreeEdits.DeleteByIdAbsent | src/components/biography/BiographyPage.tsx:279-294 | deleting an id that is not in the tree changes nothing |
| TreeEdits.FindById | src/components/biography/BiographyPage.tsx:284 | finds a section exactly when the id occurs in the tree |
| TreeEdits.CollectedIffNumbered | src/components/biography/BiographyPage.tsx:68-77 | a number is collected exactly when some section in the walk carries it |
| TreeEdits.CollectAppend | src/components/biography/BiographyPage.tsx:69-76 | numbers are collected collection by collection, in order |
| EditSession.AddSectionReaches | src/components/biography/BiographyPage.tsx:219-259 | whichever branch is taken, the new section's id and number are in the resulting tree |
| EditSession.AddSectionPlacement | src/components/biography/BiographyPage.tsx:219-259 | with unique keys: when no parent is found, or the parent key is empty, the result is the top-level collection with the new entry put in and sorted by number; otherwise the parent key is in the tree and the section under it receives the new entry among its sorted subsections |
| EditSession.AddSectionKeepsOthers | src/components/biography/BiographyPage.tsx:219-259 | with keys unique across the tree and the new section, every section other than the receiving parent keeps its fields and its subsection keys in order |
| EditSession.AddSectionGrows | src/components/biography/BiographyPage.tsx:219-259 | with unique keys and a fresh id, adding the new section (which has no subsections) adds exactly one section |
| EditSession.DuplicateNumbers | src/components/biography/BiographyPage.tsx:83-86 | a number is reported exactly when an ADD edit carries it and the working copy holds it |
| EditSession.SaveAfterAddIsRefused | src/components/biography/BiographyPage.tsx:65-92 | after adding a section, its number is always reported as a duplicate at save |
| EditSession.BiographyPage.constructor | src/components/biography/BiographyPage.tsx:28-33 | initial state: not editing, no working copy, empty log |
| EditSession.BiographyPage.HandleEdit | src/components/biography/BiographyPage.tsx:57-60 | edit mode on, and the working copy equals the biography |
| EditSession.BiographyPage.HandleSave | src/components/biography/BiographyPage.tsx:62-111 | saved exactly when no duplicate is found; a refusal gives the duplicate message and changes nothing; success publishes the working copy, leaves edit mode and clears the log |
| EditSession.BiographyPage.HandleCancel | src/components/biography/BiographyPage.tsx:113-117 | edit mode off, no working copy, empty log |
| EditSession.BiographyPage.HandleBiographyTitleChange | src/components/biography/BiographyPage.tsx:120-135 | retitles the working copy and logs a RENAME with the old title and the new title; nothing happens without a working copy |
| EditSession.BiographyPage.HandleSectionTitleChange | src/components/biography/BiographyPage.tsx:137-169 | renames by key in the working copy and logs a RENAME; nothing happens without a working copy |
| EditSession.BiographyPage.HandleAddSection | src/components/biography/BiographyPage.tsx:171-274 | creates the section (id from the clock, title `number + " " + name`, prompt-based content, no subsections), places it, and logs an ADD with the parent key and the prompt |
| EditSession.BiographyPage.HandleDeleteSection | src/components/biography/BiographyPage.tsx:276-309 | deletes by id in the working copy and logs a DELETE without data |
| EditSession.BiographyPage.HandleAddComment | src/components/biography/BiographyPage.tsx:311-330 | appends a COMMENT holding the selected text and the comment; the tree is untouched |
| Export.SectionToMarkdown | src/utils/exportUtils.ts:5-18 | a section's Markdown is its heading and content followed by its subsections one level deeper, in pre-order |
| Export.AppendSubsections | src/utils/exportUtils.ts:13-15 | the `forEach` appends the subsections' Markdown in collection order |
| Export.SectionMarkdownShape | src/utils/exportUtils.ts:6-7 | a section at level L opens with exactly L `#`, a space, its title and a blank line |
| Export.ExportToMarkdown | src/utils/exportUtils.ts:129-140 | the document is `"# " + title + "\n\n"`, then the content block when content is non-empty, then every section from level 2 in pre-order |
| Export.FlattenLevels | src/utils/exportUtils.ts:138-140 | every section of a walk started at level 2 sits at level 2 or deeper |
| Export.SectionFontSize | src/utils/exportUtils.ts:50 | the heading size is `max(16 - 2 * level, 12)`: never below 12, and 12 from level 2 on |
| Export.CollectSection | src/utils/exportUtils.ts:70-90 | pushes the section's heading block, its content block when content is non-empty, then its subsections' blocks one level deeper |
| Export.CollectEach | src/utils/exportUtils.ts:87-89 | the `forEach` pushes the subsections' blocks in collection order |
| Export.PdfContents | src/utils/exportUtils.ts:54-94 | the block list is the title block (level 1, size 20), the optional content block (size 12), then every section's blocks from level 2 in pre-order |
| Export.PdfSectionSizes | src/utils/exportUtils.ts:50 | every section block, heading or body, is set at size 12 |
| Export.PdfHeadingsAreTitles | src/utils/exportUtils.ts:70-90 | the heading blocks are exactly the section titles, one per section, in pre-order |
| Export.ExportFilename | src/utils/exportUtils.ts:125 | the file name ends with the extension, is no longer than title plus extension, and has no white space when the extension has none |
| Export.ExportFilenameLowerCase | src/utils/exportUtils.ts:147 | the part before the extension holds no upper-case ASCII letter |
| Export.ExportFilenameJoinsWords | src/utils/exportUtils.ts:147 | two words with any run of white space between them become the lower-cased words joined by one `_` |
| Export.HeadingLevel | src/components/Biography/BiographyPage.tsx:27-28 | the displayed level is the level clamped to 1..5: the level itself inside that range, 1 below it and 5 above it |
| TopicSelection.ValidateCustomTopics | src/components/chat/modals/TopicSelectionModal.tsx:56-61 | an error is recorded exactly at the indices whose topic trims to empty, each with the fixed message |
| TopicSelection.NonBlankTopics | src/components/chat/modals/TopicSelectionModal.tsx:69 | keeps exactly the topics that do not trim to empty |
| TopicSelection.NonBlankTopicsKeepsAll | src/components/chat/modals/TopicSelectionModal.tsx:69 | after validation has passed, the filter removes nothing |
| TopicSelection.RemoveAt | src/components/chat/modals/TopicSelectionModal.tsx:45 | drops exactly position `index` and keeps the rest in order |
| TopicSelection.TopicSelectionModal.constructor | src/components/chat/modals/TopicSelectionModal.tsx:19-21 | everything starts empty |
| TopicSelection.TopicSelectionModal.HandleChange | src/components/chat/modals/TopicSelectionModal.tsx:23-25 | replaces the selection wholesale |
| TopicSelection.TopicSelectionModal.HandleCustomTopicChange | src/components/chat/modals/TopicSelectionModal.tsx:27-38 | replaces only the topic at the index, and clears that index's error when one is shown |
| TopicSelection.TopicSelectionModal.AddCustomTopic | src/components/chat/modals/TopicSelectionModal.tsx:40-42 | appends one empty topic |
| TopicSelection.TopicSelectionModal.RemoveCustomTopic | src/components/chat/modals/TopicSelectionModal.tsx:44-51 | removes that topic, and that index's error, without renumbering the other errors |
| TopicSelection.TopicSelectionModal.HandleOk | src/components/chat/modals/TopicSelectionModal.tsx:54-72 | with a blank topic: submits nothing and records errors at exactly the blank indices; otherwise: submits the selection followed by every custom topic in order |
| Users.ValidateUserId | src/components/user/Register.tsx:47-55 | rejects an empty value as missing, accepts exactly the non-empty strings of lower-case ASCII letters and digits, and rejects the rest as badly formed |
| Users.MatchesUserIdPatternIff | src/components/user/Register.tsx:51 | `/^[a-z0-9]+$/` matches exactly the non-empty strings of those characters |
| Users.PasswordCheck | src/components/user/Register.tsx:107-110 | accepted exactly at six characters or more; an empty value is reported as missing, a short one as too short |
| Users.ConfirmPasswordCheck | src/components/user/Register.tsx:124-131 | passes exactly when the value is empty or equals the password |
| Users.SubmitRegister | src/components/user/Register.tsx:21-34 | the request carries the lower-cased id, the email and the password; the same lower-cased id is signed in |
| Users.SubmitLogin | src/components/user/Login.tsx:19-31 | the request carries the lower-cased id and the password; the same id is stored and announced |
| Users.AcceptedIdSubmittedAsTyped | src/components/user/Login.tsx:25-30 | an id that passed validation is sent and stored exactly as typed |
| Users.LoginFailedMessage | src/components/user/Login.tsx:33-39 | the failure message is `"Login failed: "` plus the error message, whether or not the status is 401 |
| ApiConfig.ApiBaseUrl | src/config/index.ts:12 | the configured base when it is set and non-empty, the local default otherwise |
| ApiConfig.Lookup | src/config/index.ts:13-18 | finds a path exactly when the key is one of the four endpoint names |
| ApiConfig.GetApiUrl | src/config/index.ts:21-27 | the URL starts with the base; a known key adds its path, any other string is appended verbatim |
| ApiConfig.KnownEndpoints | src/config/index.ts:13-24 | each of the four endpoint names gives the base followed by its fixed path |
| ApiConfig.UnknownEndpointVerbatim | src/utils/api.ts:61 | `'TRANSCRIBE'`, `'REGISTER'` (src/components/user/Register.tsx:23) and `'TEXT_TO_SPEECH'` (src/components/chat/ChatPage.tsx:48) are not in the table, so each is appended to the base as it is, with no `/` |
| Stores.AuthStore.constructor | src/stores/authStore.ts:10-12 | starts signed out with no user id |
| Stores.AuthStore.Login | src/stores/authStore.ts:13 | stores the id and marks the store authenticated, keeping "authenticated exactly when an id is stored" |
| Stores.AuthStore.Logout | src/stores/authStore.ts:14 | returns to the initial state, keeping "authenticated exactly when an id is stored" |
| Stores.SessionStore.constructor | src/stores/sessionStore.ts:9-10 | starts with no session |
| Stores.SessionStore.SetSessionId | src/stores/sessionStore.ts:11 | the last id set is the one held |
| Stores.SessionStore.ClearSession | src/stores/sessionStore.ts:12 | returns to the initial state whatever came before |
| Strings.SplitJoin | src/utils/biographyUtils.ts:90-93 | joining pieces without the separator and splitting again gives the pieces back |
| Strings.ReplaceWhitespaceRunsCollapses | src/utils/exportUtils.ts:125 | `replace(/\s+/g, rep)` turns each maximal run of white space into one `rep` |
| Strings.TrimEmptyIffBlank | src/components/chat/modals/TopicSelectionModal.tsx:58 | `trim()` gives the empty string exactly when the text is all white space |
| Strings.DecimalString | src/components/biography/BiographyPage.tsx:176 | the clock reading in the new id is a non-empty digit string whose value is that reading |

## Left out

- Network and browser I/O are not modelled: the fetches, the commented-out save request, the Blob download, jsPDF page rendering and pagination (`renderContent`), antd messages and navigation.
- `Date.now()` and `new Date().toISOString()` become parameters of the handlers (`now`, `isoNow`, `timestamp`). EditSession.NewSection uses the one `isoNow` for both `created_at` and `last_edit`, while the code calls `new Date().toISOString()` twice (src/components/biography/BiographyPage.tsx:180-181), so the two stamps could differ by a tick.
- The page's loading and error states are not modelled. The initial fetch is reduced to the constructor argument.
- `formatContent` is not part of this model.
- `Number()` coercion is modelled only on digit strings. `""` counts as 0, and any other string counts as not numeric (0 in the sort). Signs, decimals, exponents, white space and hexadecimal forms are not modelled. Segment values are compared exactly, while the code compares IEEE-754 doubles: digit strings above 2^53 round (so `Number("9007199254740993") === Number("9007199254740992")`), and those of about 309 digits or more become `Infinity`. For such segments the code's comparator can return 0 where the model orders the values.
- `toLowerCase` is modelled for ASCII letters only.
- The enumeration order of JavaScript object keys is not modelled: integer-like keys come first in JavaScript, and the model keeps insertion order.
- The prototype keys that `in` would also see are not modelled: `endpoint in config.API_ENDPOINTS` in `getApiUrl` (src/config/index.ts:22), and `id in newSections` in `updateSubsections` (src/components/biography/BiographyPage.tsx:235), where a key such as `constructor` would also be found.
- Deep-clone identity, aliasing and in-place updates are modelled on values:
  - `deleteSection` assigns `section.subsections` in place on objects the working copy shares; the model rebuilds the tree as a value, with the same result;
  - `collectSection` pushes onto the shared `contents` array; the model threads the list through as a value.
- TopicSelection.TopicSelectionModal.HandleCustomTopicChange: requires the index to be in range. An out-of-range assignment in JavaScript would grow the list with holes, and the dialog only passes indices of existing inputs.
- Export.Repeat: only the non-negative counts the export uses are meaningful. `'#'.repeat` of a negative count throws in JavaScript, and levels start at 1.
- Strings.SegmentValue: states the exact decimal value of a digit string. The application's `Number()` gives that value only below 2^53; above it the double is rounded, which the model does not capture.
- BiographyUtils.FindSectionNumberIsFirstInPreOrder: requires every key in the tree to be non-empty. An empty key returned from a subtree counts as "not found" in the code and the search goes on, which the model follows but this lemma does not describe.
- The sign-up form's other parts are not modelled:
  - its error messages after a failed request;
  - the email rules;
  - the `required` rule of the confirm field, which antd applies before the custom validator.
- The access token passed to `login` after signing in is not modelled.
- The handlers are modelled with their declared signatures, where a section is named by its string id (src/components/biography/BiographyPage.tsx:137, 276). The section view the page imports calls them with the `Section` object instead (src/components/biography/sections/EditableSection.tsx:61, 162), wired up at src/components/biography/BiographyPage.tsx:461-463. Called that way, `key === id` (line 144) and `section.id === targetId` (line 284) never hold: the page's rename and delete change no section but still log an edit. The model does not cover that call path. The older view in src/components/Biography/sections/EditableSection.tsx (lines 53, 136) passes `section.id`, as the model does.
