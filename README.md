# duplikat: the create-backup window and the shared types

duplikat is a desktop front end, written in Rust with GTK, for a backup
daemon (`duplikatd`). This project models two parts of it in Dafny:

- **The shared data model** (`duplikat-types/src/lib.rs`). A `Backup` holds a
  name, a `Repository` and a password. A `Repository` holds a
  `RepositoryKind` (`Local`, `SFTP` or `B2`), an identifier and a path. The
  traits that convert them to and from JSON are derived. `json.dfy` models
  the part of JSON these types use: strings and objects, a compact printer
  and a parser. `types.dfy` models the derived encoding and decoding. It
  proves that fields are written in declaration order, that kinds are
  written as lowercase names, and that the test's exact text comes out for
  the test value. It also proves the round trip and that an unknown kind is
  refused.
- **The create-backup window** (`duplikat/src/edit.rs`), as the class
  `Edit.CreateEditUI`. Its GTK widgets are reduced to the state the code
  reads and writes:
  - the texts of the entries;
  - the combo box's kind;
  - the lists of include and exclude entries, as `Entry` objects compared by
    identity;
  - the stack's visible page;
  - the sensitivity and visibility of Back, Forward and Add Backup;
  - the rows that the kind shows.

  Each handler is a method whose postcondition gives the whole new state.
  The class invariant `Valid` says four things:
  - Back is sensitive exactly off the first page;
  - Forward is visible exactly off the last page;
  - Add Backup is visible exactly on the last page;
  - the visible rows suit the kind, the entry lists hold no entry twice, and
    Add Backup is sensitive only for a form that passes validation.

  Every handler keeps `Valid`. The pure parts are separate functions with
  their own lemmas:
  - the navigation step;
  - the validation predicate;
  - the kind's visibility rules;
  - the assembly of the backup message.

Two behaviours follow the code rather than what its comments suggest:

- `clear` sets the combo box's active id to `"Local"`. The ids come from
  `kind.to_string()` (edit.rs:73), whose definition is not part of this
  model. The model takes them to be the lowercase names that the window
  itself activates with `"local"` (edit.rs:75). Under that assumption no id
  matches `"Local"`, so the kind is not reset.
- The `changed` handlers that run `update_state` find the window already
  borrowed while `clear` runs, so they do nothing. Forward keeps its
  sensitivity, and the stack stays on its page.

Files: `wrappers.dfy` (Option and Result), `json.dfy`, `types.dfy`,
`rust_str.dfy` (`str::trim`), `edit.dfy`.

## Model

| member | source | states |
|---|---|---|
| DuplikatTypes.KindName | duplikat-types/src/lib.rs:3-9 | A kind is written as its variant's name in lower case: one of "local", "sftp", "b2". The name needs no escaping and holds no colon. |
| DuplikatTypes.KindFromName | duplikat-types/src/lib.rs:3-9 | Exactly the three lowercase names are accepted as kinds, and the accepted name is the accepted kind's name. |
| DuplikatTypes.KindNameInverse | duplikat-types/src/lib.rs:3-9 | Reading a kind's name gives back the kind, and two kinds share a name only if they are the same kind. |
| DuplikatTypes.EncodeRepositoryLayout | duplikat-types/src/lib.rs:11-16 | A Repository is written as the object with kind, identifier and path, in declaration order, with no whitespace. |
| DuplikatTypes.EncodeLayout | duplikat-types/src/lib.rs:18-23 | A Backup is written as the object with name, repository and password, in declaration order, with the repository object nested. |
| DuplikatTypes.TestBackupEncoding | duplikat-types/src/lib.rs:29-45 | The `it_works` value is written as exactly the test's expected string. |
| DuplikatTypes.EncodeRepository | duplikat-types/src/lib.rs:11-16 | `serde_json::to_string` of a Repository. Its layout is given by EncodeRepositoryLayout, and it is inverted by RepositoryRoundTrip. |
| DuplikatTypes.Encode | duplikat-types/src/lib.rs:18-23 | `serde_json::to_string` of a Backup. Its layout is given by EncodeLayout and TestBackupEncoding, and it is inverted by RoundTrip. |
| DuplikatTypes.DecodeKind | duplikat-types/src/lib.rs:3-9 | A kind is read exactly from a string that is one of the three lowercase names, as the kind with that name. Any other string fails as an unknown variant. |
| DuplikatTypes.Collect | duplikat-types/src/lib.rs:11-23 | The derived visitor's pass over an object's members. CollectSpec states what it computes. |
| DuplikatTypes.DecodeRepository | duplikat-types/src/lib.rs:11-16 | The derived Deserialize of a Repository from a parsed value. DecodeRepositoryByLookup states it independently of the encoder. |
| DuplikatTypes.DecodeBackup | duplikat-types/src/lib.rs:18-23 | The derived Deserialize of a Backup. DecodeBackupByLookup states it. |
| DuplikatTypes.DecodeRepositoryText | duplikat-types/src/lib.rs:11-16 | `serde_json::from_str` of a Repository. DecodeRepositoryLayout and RepositoryRoundTrip state what it reads. |
| DuplikatTypes.Decode | duplikat-types/src/lib.rs:18-23 | `serde_json::from_str` of a Backup. DecodeLayout, RoundTrip and UnknownKindRejected state what it reads. |
| DuplikatTypes.CollectSpec | duplikat-types/src/lib.rs:11-23 | The derived visitor's pass over an object's members succeeds exactly when no field occurs twice. Its result maps each field to the value of its member, with unknown members skipped. |
| DuplikatTypes.DecodeRepositoryByLookup | duplikat-types/src/lib.rs:11-16 | An object decodes to a Repository exactly when kind, identifier and path each occur once, kind names a variant and the others are strings, in any order and among any other members. The result is made of those fields. |
| DuplikatTypes.DecodeBackupByLookup | duplikat-types/src/lib.rs:18-23 | The same for a Backup: name and password are strings, and the repository member decodes as a Repository. |
| DuplikatTypes.DecodeRepositoryLayout | duplikat-types/src/lib.rs:3-16 | Reading a written Repository succeeds exactly when the kind text is a lowercase kind name, and gives back the fields written. Any other kind text fails as an unknown variant. |
| DuplikatTypes.DecodeLayout | duplikat-types/src/lib.rs:3-23 | Reading a written Backup succeeds exactly when its kind text is a lowercase kind name, and gives back the fields written. Otherwise it fails as an unknown variant. |
| DuplikatTypes.RepositoryRoundTrip | duplikat-types/src/lib.rs:11-16 | Decoding the encoding of a Repository gives the Repository back. |
| DuplikatTypes.RoundTrip | duplikat-types/src/lib.rs:18-23 | Decoding the encoding of a Backup gives the Backup back. |
| DuplikatTypes.UnknownKindRejected | duplikat-types/src/lib.rs:3-9 | A backup whose kind is written other than as the three lowercase names (for instance "B2") is not read. |
| Json.Print | duplikat-types/src/lib.rs:18 | The compact writer `serde_json::to_string` uses: no whitespace, members in the order given. EncodeLayout spells out its text for the two types. |
| Json.Parse | duplikat-types/src/lib.rs:18 | The reader `serde_json::from_str` uses, refusing trailing characters. RoundTrip states that it inverts Print. |
| Json.ParsePrinted | duplikat-types/src/lib.rs:18 | The parser reads exactly the printed value back and leaves what follows it unread. |
| Json.RoundTrip | duplikat-types/src/lib.rs:18 | Parsing a printed value gives the value back, with no trailing characters. |
| RustStr.Trim | duplikat/src/edit.rs:635 | `str::trim`. TrimStartSpec, TrimEndSpec, TrimEmpty and TrimShape state what it removes. |
| RustStr.TrimStartSpec | duplikat/src/edit.rs:635 | `trim_start` drops exactly the leading white space: what is left is a suffix that is empty or starts with a character that is not white space. |
| RustStr.TrimEndSpec | duplikat/src/edit.rs:635 | `trim_end` drops exactly the trailing white space. |
| RustStr.TrimEmpty | duplikat/src/edit.rs:635 | A string trims to the empty string exactly when all of it is white space. |
| RustStr.TrimShape | duplikat/src/edit.rs:635 | A trimmed string starts and ends with characters that are not white space, and is a part of the original. |
| RustStr.TrimIdempotent | duplikat/src/edit.rs:635 | Trimming twice is trimming once. |
| Edit.Step | duplikat/src/edit.rs:463-494 | Forward moves repository to include to exclude, and Back moves the other way. A step keeps the buttons in agreement with the page. |
| Edit.ForwardThenBack | duplikat/src/edit.rs:468-489 | Forward and then Back restores the page and all three button flags. |
| Edit.BackThenForward | duplikat/src/edit.rs:468-489 | Back and then Forward restores them too. |
| Edit.ButtonsMatchMoves | duplikat/src/edit.rs:463-494 | While the flags agree with the page, Back is sensitive and Forward visible exactly when `go` handles the move. The `unreachable!()` arms cannot be reached from the buttons. |
| Edit.Clickable | duplikat/src/edit.rs:333-343 | Back can be clicked when it is sensitive. Forward can be clicked when it is visible and, at that moment, sensitive. Clicks and StuckUntilValid state what that allows. |
| Edit.Clicks | duplikat/src/edit.rs:333-343 | Any series of clicks keeps the flags in agreement with the page. A click on a hidden or insensitive button does nothing. |
| Edit.StuckUntilValid | duplikat/src/edit.rs:189-192 | Forward starts insensitive, so until it becomes sensitive no series of clicks leaves the first page. |
| Edit.ForwardClicks | duplikat/src/edit.rs:480-489 | A click on a sensitive Forward moves one page on. On the last page, where Forward is hidden, it does nothing. |
| Edit.NavAt | duplikat/src/edit.rs:463-494 | The flag setting for a page agrees with it. |
| Edit.NavAtUnique | duplikat/src/edit.rs:463-494 | Exactly one flag setting agrees with each page. |
| Edit.ClicksFromStart | duplikat/src/edit.rs:185-198 | From the initial buttons (Back insensitive, Forward shown, Add Backup hidden), every series of clicks reaches the single flag setting of the page it lands on. |
| Edit.CanSubmit | duplikat/src/edit.rs:633-643 | The test `update_state` makes. CanSubmitMeaning states it without trimming, and ClearedForm shows that a cleared form fails it. |
| Edit.CanSubmitMeaning | duplikat/src/edit.rs:631-647 | The form passes validation exactly when the name holds a character that is not white space and the password is non-empty and equal to the confirmation. |
| Edit.ApplyKind | duplikat/src/edit.rs:116-152 | Local hides the identifier row, SFTP and B2 show it, and only B2 shows the key and secret rows. SFTP and B2 set the label and placeholders the handler writes. Texts the handler does not set keep their earlier values. |
| Edit.ApplyKindIdempotent | duplikat/src/edit.rs:116-152 | Running the handler twice for one kind is running it once. |
| Edit.LastKindDecides | duplikat/src/edit.rs:116-152 | Whatever came before, the rows shown suit the last kind chosen, and so does the identifier's label for SFTP and B2. |
| Edit.InitialLayoutFits | duplikat/src/edit.rs:75-109 | The window as built, with the handler not yet connected when "local" is made active, shows what Local calls for. |
| Edit.RepositoryString | duplikat/src/edit.rs:357 | The `format!` of kind, identifier and path. RepositoryStringKind, RepositoryStringInjective and ColonInIdentifierAmbiguous state what it determines. |
| Edit.AssembleBackup | duplikat/src/edit.rs:350-390 | The message the Add Backup handler builds. AssembleBackupFields and CredentialsSentWhenShown state what is sent. |
| Edit.RepositoryStringKind | duplikat/src/edit.rs:350-364 | The repository string starts with the kind's name followed by a colon. The kind read from it is the combo box's kind. |
| Edit.RepositoryStringInjective | duplikat/src/edit.rs:357 | For identifiers without colons, the repository string determines the kind, identifier and path, in both directions. |
| Edit.ColonInIdentifierAmbiguous | duplikat/src/edit.rs:357 | With a colon in the identifier, two different SFTP repositories give the same string. |
| Edit.AssembleBackupFields | duplikat/src/edit.rs:350-390 | The key and secret are sent, as typed, exactly for B2. The name, password and both lists pass through unchanged and in order. |
| Edit.CredentialsSentWhenShown | duplikat/src/edit.rs:360-370 | The key and secret are sent exactly when their rows are visible. |
| Edit.Cleared | duplikat/src/edit.rs:649-663 | After `clear`, every text entry is empty, including each include entry, and the include list keeps its length. The kind and the exclude list are unchanged. |
| Edit.ClearedForm | duplikat/src/edit.rs:649-663 | A cleared form fails validation, and clearing it again changes nothing. |
| Edit.Retain | duplikat/src/edit.rs:557-559 | `Vec::retain` keeping the elements `x` with `x != &entry`, as used by both remove handlers (also edit.rs:611-613). RetainMembers, RetainAbsent, RetainOnce and RetainDistinct state what it keeps. |
| Edit.RetainMembers | duplikat/src/edit.rs:557-559 | `retain` keeps exactly the elements other than the removed one. |
| Edit.RetainAbsent | duplikat/src/edit.rs:611-613 | `retain` of an element not in the list changes nothing. |
| Edit.RetainOnce | duplikat/src/edit.rs:611-613 | In a list without repeats, `retain` removes the one occurrence and keeps the order of the rest around it. |
| Edit.RetainDistinct | duplikat/src/edit.rs:557-559 | `retain` keeps a list free of repeats. |
| Edit.DisjointKept | duplikat/src/edit.rs:557-613 | Two lists with no common entry keep none when entries are only removed. |
| Edit.NextRowNum | duplikat/src/edit.rs:35-38 | The counter is incremented, and the new value is returned. |
| Edit.RepositoryGridCells | duplikat/src/edit.rs:56-180 | Starting the counter at -1, the eight labels of the repository page land in column 0 on rows 0 to 7, in order. The name label's column is 0 too, because it takes the counter's first value. |
| Edit.Entry.constructor | duplikat/src/edit.rs:542-543 | A new entry holds the text it is given. |
| Edit.Entry.SetText | duplikat/src/edit.rs:543 | `set_text` replaces the entry's text and changes nothing else. |
| Edit.CreateEditUI.constructor | duplikat/src/edit.rs:41-461 | A new window satisfies the invariant and shows the first page. Back and Forward are insensitive, Add Backup is hidden and insensitive, and the dialog is hidden. The form is empty with kind Local, one include entry holding the default path, and one exclude entry per default pattern, in order. |
| Edit.CreateEditUI.DefaultExcludeRows | duplikat/src/edit.rs:500-531 | One new exclude entry per pattern is appended, in order. Nothing else changes. |
| Edit.CreateEditUI.Open | duplikat/src/edit.rs:496-498 | The dialog is shown, and nothing else changes. |
| Edit.CreateEditUI.Go | duplikat/src/edit.rs:463-494 | One `go` changes the page and the button flags as `Step` does and nothing else, and keeps the invariant. The `unreachable!()` moves are excluded by the precondition. |
| Edit.CreateEditUI.UpdateState | duplikat/src/edit.rs:631-647 | Forward and Add Backup become sensitive exactly when the form passes validation, and nothing else changes. A second call changes nothing. |
| Edit.CreateEditUI.InputName | duplikat/src/edit.rs:437-455 | Typing a name changes the name and re-runs validation on the new name. |
| Edit.CreateEditUI.InputPath | duplikat/src/edit.rs:437-455 | Typing a path changes the path and re-runs validation. |
| Edit.CreateEditUI.InputPassword | duplikat/src/edit.rs:437-455 | Typing a password changes it and re-runs validation on the new password. |
| Edit.CreateEditUI.InputConfirm | duplikat/src/edit.rs:437-455 | Typing the confirmation changes it and re-runs validation on the new confirmation. |
| Edit.CreateEditUI.InputIdentifier | duplikat/src/edit.rs:84-87 | Editing the identifier changes only that text: no handler runs. |
| Edit.CreateEditUI.InputKeyId | duplikat/src/edit.rs:95-98 | Editing the key changes only that text. |
| Edit.CreateEditUI.InputKeySecret | duplikat/src/edit.rs:106-109 | Editing the secret changes only that text. |
| Edit.CreateEditUI.ChangeKind | duplikat/src/edit.rs:112-154 | Choosing a different kind changes the kind and applies the visibility rules. Choosing the active kind again changes nothing. |
| Edit.CreateEditUI.NewIncludeRow | duplikat/src/edit.rs:579-625 | A new entry holding the path is appended to the include list. Nothing else changes. |
| Edit.CreateEditUI.NewExcludeRow | duplikat/src/edit.rs:533-577 | A new entry holding the initial text is appended to the exclude list. Nothing else changes. |
| Edit.CreateEditUI.InputExclude | duplikat/src/edit.rs:542-544 | Editing exclude entry i changes only position i of the exclude texts. |
| Edit.CreateEditUI.RemoveIncludeRow | duplikat/src/edit.rs:607-619 | The remove button drops its entry from the include list by `retain`, and the invariant holds afterwards. |
| Edit.CreateEditUI.RemoveExcludeRow | duplikat/src/edit.rs:553-565 | The same for the exclude list. |
| Edit.CreateEditUI.Clear | duplikat/src/edit.rs:649-663 | `clear` hides the dialog, leaves the form as `Cleared` describes, makes Add Backup insensitive and keeps the invariant. The page, Forward, the kind and its rows are unchanged. |
| Edit.CreateEditUI.ClearEntries | duplikat/src/edit.rs:652-659 | The seven text entries are emptied, and the kind and lists are untouched. |
| Edit.CreateEditUI.ClearIncludes | duplikat/src/edit.rs:660-661 | Every include entry's text is emptied, and the exclude entries keep theirs. |

## Left out

- GTK itself: widget construction, grid attachment, CSS classes, the list boxes and their rows, labels and markup. Only the state the code reads and writes is modelled. Removing a row from its list box is not modelled.
- The exchange with the daemon in the Add Backup handler (edit.rs:392-432) is network I/O. `Clear` is the method that handler calls on success. The error dialog is not modelled.
- The file chooser behind the include list's add button (edit.rs:295-322). `NewIncludeRow` takes the chosen path as a string; `to_string_lossy` is not modelled.
- The default include path (the effective uid and the home directory, edit.rs:281-289) and the platform-dependent default exclude patterns (edit.rs:500-526) are constructor parameters.
- Focus grabbing in an idle callback (edit.rs:570-574).
- The dialog's hiding and presentation are a single flag.
- edit.rs builds a `Backup` with seven fields, parsing the repository with `Repository::from`. That version of the types, and the strum-derived `to_string`, `from_str` and `iter` of `RepositoryKind`, are not part of this model. `Edit.AssembleBackup` keeps the repository as the string handed to `Repository::from`, and the combo box's ids, which come from `kind.to_string()`, are assumed to be the lowercase kind names.
- JSON: escapes in strings, numbers, arrays, `null` and `serde_json`'s own escaping code are left out. Every string in the round-trip lemmas is free of characters that need escaping.
- DuplikatTypes.DecodeRepository: when several errors apply, which one `serde_json` reports depends on its streaming order. The model reports the first one its own pass meets. The success cases and the unknown-variant error are exact.
- Edit.Clicks treats the clicks as the only events that change the navigation: typing between clicks appears only as Forward's sensitivity recorded with each click, and `update_state` is not re-run inside Clicks.
- Edit.NextRowNum: the increment past the largest `i32`, a panic in a debug build, is excluded by a precondition.
- Edit.CreateEditUI.InputExclude: edits to include entries are not modelled, because they are hidden (edit.rs:595).
- `CreateEditUI::new` connects its handlers by closures over a shared `Rc<RefCell<…>>`. The model has one object whose methods are those handlers. A re-entrant borrow appears only as `clear` not running `update_state`.
