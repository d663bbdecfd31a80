# mystore-rs: a verified model of the file manager core

mystore-rs is a terminal file manager with a built-in text editor and
viewer. It can store texts encrypted with a session key. This project
models its core, all of it in `src/main.rs`, in Dafny:

- **The rolling byte cipher** (`cipher.dfy`). On save the editor adds key
  byte `i mod 5` to byte `i`, modulo 256. The viewer subtracts the same key
  byte, and it shows the result as text only when the result is well-formed
  UTF-8 (`utf8.dfy`, the grammar of section 4 of RFC 3629). Both loops are
  methods proved against the `Encode`/`Decode` functions.
- **The file manager** (`manager.dfy`). `FileManager` is a class whose
  fields are the root, the current directory, the listing, the cursor and
  the files created in this session. Its methods are proved against pure
  functions:
  - the listing is folders ascending by path, then files newest first, then
    Back and Root outside the root (`CreateEntities`);
  - the cursor moves with wrap-around (`NextIndex`, `PrevIndex`);
  - `action` goes where `Destination` says;
  - deletion is gated by `DeleteEffect`.
- **The filesystem** (`filesystem.dfy`, `paths.dfy`). The filesystem is a
  value: a map from paths to directories, regular files or special entries.
  Every call fails exactly when the entry it needs is missing or of the
  wrong kind.
- **Sorting** (`sorting.dfy`). `sort_by_cached_key` is a stable sort. The
  model stands for it with a stable insertion sort, which is proved to
  sort and to keep the relative order of equal keys. Any two stable sorts
  by the same keys put the elements in the same order, so the listing is
  the one the program builds.
- **The viewer and the editor** (`viewer.dfy`, `editor.dfy`). Both are
  classes:
  - the viewer's `set_entity` decrypts binary content when the key turns it
    into text;
  - scrolling uses checked `u16` arithmetic;
  - the editor's text area is an optional sequence of lines, which
    `finish`/`finish_encrypt` take and join with newlines.
- **The session** (`session.dfy`). `update` is a dispatch over the mode and
  the key:
  - `Route` names the arm a key takes and `ModeAfter` the mode it leads to;
  - each mode's arm is a method that states its effect on the three
    components;
  - `run_session`'s loop keeps the mode when `update` fails, and leaves
    only after Esc in the manager.

Three behaviours of the code are worth stating explicitly, because a
reader might expect otherwise:
- `scroll_up` by more than the offset leaves the offset unchanged. It does
  not clamp to zero, because `checked_sub` fails and `map_or` keeps the old
  value.
- From an unset cursor, `n` calls of `next` on `n` entries end on the last
  entry, and it takes `n + 1` calls to come back to entry 0
  (`NextTimesFromNone`).
- Enter on a file tries `read_to_string` first, and only bytes that are
  not UTF-8 reach the viewer as binary to be decrypted. An encrypted file
  whose ciphertext happens to be UTF-8 is therefore shown encrypted: with
  the key "AAAAA", the text "12345" is stored as "rstuv" and shown as
  "rstuv" (`EncryptedFileOpens`, `AsciiCipherOpensEncrypted`).

## Model

| member | source | states |
|---|---|---|
| Cipher.CryptAdd | src/main.rs:396-399 | subtracting the key byte modulo 256 from the result gives the input byte back (lifted to both directions by `CryptInverse`) |
| Cipher.CryptRm | src/main.rs:304-311 | adding the key byte modulo 256 to the result gives the input byte back (lifted to both directions by `CryptInverse`) |
| Cipher.Encode | src/main.rs:401-411 | keeps the length; its inverse is `Decode` (`DecodeEncode`, `EncodeDecode`) and it works byte by byte (`EncodeLocal`) |
| Cipher.Decode | src/main.rs:313-323 | keeps the length; it undoes `Encode` (`DecodeEncode`) |
| Cipher.TryDecrypt | src/main.rs:313-323 | succeeds exactly when the decoded bytes are UTF-8; that is exactly when the input is an encrypted text (`DecryptsIffEncryptedText`) |
| Cipher.CryptInverse | src/main.rs:304-311 | `crypt_rm` undoes `crypt_add` (src/main.rs:396-399) for the same key byte, and the other way round |
| Cipher.EncryptString | src/main.rs:401-411 | the loop, whose key position advances modulo 5, returns exactly `Encode(s, key)` |
| Cipher.DecryptBinary | src/main.rs:313-323 | the inverse loop plus `String::from_utf8` returns the decoded bytes as text exactly when they are valid UTF-8, and otherwise an error holding them |
| Cipher.DecodeEncode | src/main.rs:313-323 | decoding the encoded bytes gives back the original, and encoding keeps the length |
| Cipher.EncodeDecode | src/main.rs:401-411 | every byte string is the encoding of its decoding, so encoding is a bijection for each length |
| Cipher.EncodeLocal | src/main.rs:401-411 | output byte `i` depends only on input byte `i`: equal input bytes give equal output bytes, and different ones different output bytes |
| Cipher.EncodeKeyLocal | src/main.rs:396-411 | output byte `i` depends on the key only through `key[i mod 5]`: two keys agreeing there encode byte `i` alike |
| Cipher.EncodeKeyPrefix | src/main.rs:396-411 | only the first five key bytes are read: a longer key encodes as its five-byte prefix does |
| Cipher.EncodePrefix | src/main.rs:401-411 | the encoding of a prefix is the prefix of the encoding |
| Cipher.EncodeAligned | src/main.rs:401-411 | the key restarts every five bytes: a five-byte-aligned split encodes piece by piece |
| Cipher.DecryptsIffEncryptedText | src/main.rs:313-323 | decryption accepts a blob exactly when the blob is the encryption of some text of its length |
| Cipher.EncryptedTextDecrypts | src/main.rs:313-323 | decrypting what the editor encrypted gives back that very text |
| Sorting.SortBy | src/main.rs:79-83 | a permutation of the input; sorted by the keys (`SortBySorted`) and stable (`SortByStable`) |
| Sorting.SortBySorted | src/main.rs:79-83 | sorting by a total preorder gives a sequence ordered by the keys |
| Sorting.SortByStable | src/main.rs:95-105 | for every key, the elements with that key keep their input order |
| Paths.PathOrder | src/main.rs:79-83 | the path order folders are sorted by is total and transitive, and only equal paths are equivalent |
| FileSystem.ReadDir | src/main.rs:56-66 | `read_dir` succeeds exactly on a directory; it lists one child path per entry, in the directory's order |
| FileSystem.WriteFile | src/main.rs:215-216 | creating and writing succeeds exactly when the directory exists and the name is free or a regular file; the file then reads back as `data` and is listed, and every child the directory listed before is still listed |
| FileSystem.RemoveFile | src/main.rs:238 | `remove_file` succeeds exactly on a regular file; the file is gone and every entry other than it and its directory is unchanged |
| FileSystem.RemoveAfterWrite | src/main.rs:208-256 | a file just written can be removed, and afterwards it can no longer be read nor is it listed |
| Manage.Dirs | src/main.rs:69-78 | exactly the directories among the paths, each as many times as it occurs (that they keep their order is the body's left-to-right filter) |
| Manage.Regular | src/main.rs:85-94 | exactly the regular files among the paths, each as many times as it occurs (that they keep their order is the body's left-to-right filter) |
| FileSystem.ModifiedKey | src/main.rs:95-103 | a file whose metadata reads but has no modification time counts as the epoch, time 0 |
| FileSystem.WriteFileFrame | src/main.rs:215-216 | writing a file leaves every entry other than that file and its directory as it was |
| Manage.NewestFirstOrder | src/main.rs:95-103 | newest-first (`NewestFirst` over `NewerOrSame`, the order of `Reverse<Option<SystemTime>>`) is a total preorder, and two files tie exactly when their modification keys are equal |
| Manage.CreateEntities | src/main.rs:68-114 | specified by `ListingLayout`, `ListingFolders`, `ListingFiles`, `ListingStable` and `ListingMembers`: folders ascending by path, then files newest first, then Back and Root outside the root |
| Manage.Listing | src/main.rs:116-124 | specified by `ListingInDir`: the listing of a directory holds only its children, and offers Back only below the root |
| Manage.NewerOrSame | src/main.rs:95-103 | specified by `NewestFirstOrder`: the order of `Reverse<Option<SystemTime>>`, later first and a missing time last |
| Manage.NewestFirst | src/main.rs:95-103 | specified by `NewestFirstOrder` and `NoMetadataLast`: a total preorder in which files tie exactly on equal modification keys |
| Manage.ListingLayout | src/main.rs:68-114 | the listing is #dirs folders, then #files text files, then Back and Root exactly when this is not the root |
| Manage.ListingFolders | src/main.rs:69-83 | the folder run is ascending by path and is a permutation of the directories |
| Manage.ListingFiles | src/main.rs:85-105 | the file run is newest first and is a permutation of the regular files |
| Manage.NoMetadataLast | src/main.rs:95-103 | in a newest-first run, files whose metadata cannot be read come after every file with a modification key |
| Manage.ListingStable | src/main.rs:95-105 | files with equal modification keys are listed in `read_dir` order |
| Manage.ListingMembers | src/main.rs:68-114 | an entry is in the listing exactly when it is a folder for a listed directory, a text file for a listed regular file, or Back/Root outside the root |
| Manage.ListingInDir | src/main.rs:116-124 | a listing holds only children of its directory, and offers Back only below the root |
| Manage.NextIndex | src/main.rs:172-179 | on an empty listing there is no cursor; otherwise unset goes to 0, and `i` goes to `i + 1`, wrapping from the last entry to 0 |
| Manage.PrevIndex | src/main.rs:181-189 | on an empty listing there is no cursor; otherwise unset and 0 go to `n - 1`, and `i` goes to `i - 1` |
| Manage.NextPrevInverse | src/main.rs:172-189 | `previous` undoes `next`, and `next` undoes `previous` |
| Manage.NextTimes | src/main.rs:172-179 | any number of `next` calls keeps the cursor in range |
| Manage.NextTimesFrom | src/main.rs:172-179 | from entry `i`, `k <= n` calls walk down `k` entries with wrap-around; `n` calls come back to `i` |
| Manage.NextTimesFromNone | src/main.rs:172-179 | from no selection, `k + 1` calls land on entry `k`, so it takes `n + 1` calls to come back to entry 0 |
| Manage.KeepSelection | src/main.rs:200-206 | `refresh` keeps the old index exactly when it is still in range, and otherwise clears the cursor |
| Manage.ReadEntity | src/main.rs:261-267 | opening a file gives `Text` when its bytes are valid UTF-8 and `Bin` with the same bytes otherwise; it fails exactly when the path is not a regular file |
| Manage.Destination | src/main.rs:268-283 | a folder leads into itself, Root to the root, and Back to the current directory minus its last component, or nowhere at the top; a text file leads nowhere |
| Manage.DeleteEffect | src/main.rs:225-251 | no selection changes nothing; a successful delete was of a created text file, which is then gone from the disk (stated in full by `DeleteGate`) |
| Manage.DeleteGate | src/main.rs:225-256 | deletion succeeds exactly for a text file this session created that is still on disk; folders, Back/Root and foreign files each give their own error; success removes exactly the first record and the file |
| Manage.DeletableExactlyOnce | src/main.rs:208-256 | a file written and recorded once is deleted once, which restores the earlier records; a second deletion is refused |
| Manage.NameOf | src/main.rs:160-170 | the name is the last path component when that is UTF-8; Back and Root have none; a file saved under a UTF-8 name is shown under that name (`Session.WrittenTextOpens`) |
| Manage.BackStaysInTree | src/main.rs:273-279 | whenever Back is offered, the current directory has a parent and that parent is still inside the root |
| Manage.FileManager.Open | src/main.rs:128-138 | `new` fails exactly when the root is not a directory; otherwise it holds the root listing, no cursor and no created files |
| Manage.FileManager.SelectedEntity | src/main.rs:156-158 | the entry under the cursor, present exactly when the cursor is set |
| Manage.FileManager.SelectedEntityName | src/main.rs:160-170 | the name of the entry under the cursor |
| Manage.FileManager.GotoDir | src/main.rs:116-124 | fails, changing nothing, exactly when the target is not a directory; otherwise it moves there with that directory's listing and clears the cursor |
| Manage.FileManager.Next | src/main.rs:172-179 | the cursor becomes `NextIndex` of the old one |
| Manage.FileManager.Previous | src/main.rs:181-189 | the cursor becomes `PrevIndex` of the old one |
| Manage.FileManager.Select | src/main.rs:191-198 | returns true exactly when the index is in range, and only then moves the cursor there |
| Manage.FileManager.Refresh | src/main.rs:200-206 | lists the current directory again and keeps the cursor only if it still fits; fails, changing nothing, when the directory is gone |
| Manage.FileManager.CreateFile | src/main.rs:208-223 | on a successful write the file is on disk, one record is appended to the created files, and the listing is refreshed; a failed create changes nothing |
| Manage.FileManager.DeleteSelected | src/main.rs:225-256 | applies `DeleteEffect`: a refused delete changes nothing; otherwise it takes the new disk and records, then refreshes |
| Manage.FileManager.Action | src/main.rs:258-286 | no cursor gives `None`; a text file is read and nothing changes; a folder, Back or Root enters its destination if that is a directory and otherwise fails unchanged; Back at the top does nothing |
| View.Classify | src/main.rs:340-355 | text and decrypted text pass through unchanged; binary becomes decrypted text exactly when it decodes to UTF-8, and then it is the decoded bytes; otherwise it is kept as is |
| View.ClassifyBinary | src/main.rs:340-355 | binary content is shown decrypted exactly when it is the encryption of some text, and then encrypting what is shown gives the content back |
| View.EncryptedFileShowsText | src/main.rs:340-355 | `set_entity` shows binary content that is the encryption of a text under the session key as that text; whether a file reaches `set_entity` as binary is `Session.EncryptedFileOpens` |
| View.ScrolledUp | src/main.rs:369-374 | the offset goes down by the amount when that does not underflow, and is kept otherwise |
| View.ScrolledDown | src/main.rs:376-381 | the offset goes up by the amount when that stays within `u16`, and is kept otherwise |
| View.ScrollRoundTrip | src/main.rs:369-381 | a scroll that was not refused is undone by the opposite scroll of the same amount |
| View.Viewer.New | src/main.rs:327-338 | fails with an invalid-key error exactly when the key is shorter than five bytes; otherwise it starts empty, unnamed and at the top |
| View.Viewer.SetEntity | src/main.rs:340-355 | stores the name, scrolls to the top and shows `Classify` of the entity |
| View.Viewer.ScrollUp | src/main.rs:369-374 | the offset becomes `ScrolledUp` of the old one |
| View.Viewer.ScrollDown | src/main.rs:376-381 | the offset becomes `ScrolledDown` of the old one |
| View.Viewer.Clear | src/main.rs:383-387 | back to empty, unnamed text at the top |
| Edit.Join | src/main.rs:436 | no lines give the empty text, and one line gives itself |
| Edit.Lines | src/main.rs:436 | splitting at newlines gives at least one line, and no line holds a newline |
| Edit.JoinValid | src/main.rs:434-437 | joining UTF-8 lines gives UTF-8 text |
| Edit.JoinLines | src/main.rs:434-437 | splitting a text at its newlines and joining again gives the text back |
| Edit.LinesJoin | src/main.rs:434-437 | newline-free lines are recovered from their join |
| Edit.Editor.constructor | src/main.rs:415-420 | a new editor has no text area and holds the key |
| Edit.Editor.Init | src/main.rs:422-424 | a fresh text area holding one empty line |
| Edit.Editor.Input | src/main.rs:581-585 | a key changes the text area's lines when there is a text area, and nothing otherwise |
| Edit.Editor.Finish | src/main.rs:434-440 | takes the text area, leaving none, and returns its lines joined, or empty text without one |
| Edit.Editor.FinishEncrypt | src/main.rs:442-450 | takes the text area and returns `Encode` of the same joined text `finish` returns, or no bytes without one |
| Session.Route | src/main.rs:497-590 | each mode has its own arms: the viewer only scrolls or closes, the editor only closes, saves or types, and Exit only halts |
| Session.ModeAfter | src/main.rs:497-590 | an arm leads to Exit exactly when it quits or halts, and to the viewer exactly when it scrolls or opens a file |
| Session.ExitOnlyByEsc | src/main.rs:497-590 | `update` leads to Exit exactly from Exit, or from the manager on Esc |
| Session.ViewerKeys | src/main.rs:540-552 | in the viewer, Up and Down stay and every other key returns to the manager |
| Session.EditorKeys | src/main.rs:554-586 | in the editor, Esc and Control+S/E return to the manager; every other key, including S/E with other modifiers, goes to the text area |
| Session.ManagerEntersEditor | src/main.rs:529-533 | E and N enter the editor whatever the modifiers, only N starts a fresh text area, and in the manager only the delete arm can change the disk |
| Session.Shown | src/main.rs:515-526 | text read by the manager is shown as text, and bytes as binary |
| Session.OpenedFileShows | src/main.rs:261-267 | Enter on a file shows its text when the file is UTF-8, and otherwise what `set_entity` makes of its bytes |
| Session.WrittenTextOpens | src/main.rs:208-216 | a text written by a save reads back as that text, is shown as that text, and is named by its file name |
| Session.EncryptedFileOpens | src/main.rs:261-267 | a file holding an encrypted text is shown decrypted exactly when the ciphertext is not UTF-8, and as the ciphertext itself otherwise |
| Session.AsciiCipherOpensEncrypted | src/main.rs:261-267 | with the key "AAAAA", the text "12345" is stored as "rstuv", which is UTF-8 and is shown as "rstuv", not as "12345" |
| Session.ActivateSelected | src/main.rs:515-527 | Enter acts on the selection: a folder, Back or Root enters its destination with a fresh listing and no cursor, or fails with nothing changed; a text file goes to the viewer under its name, classified with the key, and a read error leaves the viewer untouched |
| Session.MoveCursor | src/main.rs:507-514 | Up and Down move the cursor with `PrevIndex`/`NextIndex` and change nothing else in the manager |
| Session.DeleteSelectedEntry | src/main.rs:534-537 | D applies `DeleteEffect` and returns its error with nothing changed; after a delete the current directory is listed again with the cursor kept if it fits, or the listing is kept when the directory is gone |
| Session.UpdateManager | src/main.rs:505-538 | each manager arm's mode and its whole effect on the manager, the viewer, the editor and the disk: Esc and E change nothing; Up/Down move only the cursor; N inits the editor; D deletes and lists again; Enter navigates or opens as `ActivateSelected` states |
| Session.UpdateViewer | src/main.rs:540-552 | Up/Down scroll by one line and stay; every other key clears the viewer and returns to the manager |
| Session.SaveTextArea | src/main.rs:561-579 | the text area is taken, plain or encrypted, and written as a new recorded file, after which the current directory is listed again with the cursor kept if it fits; a failed write returns its error with the manager unchanged and the text area gone |
| Session.UpdateEditor | src/main.rs:554-586 | Esc changes nothing; Control+S/E save as `SaveTextArea` states, refreshing the listing; any other key edits the text area and stays |
| Session.Update | src/main.rs:497-590 | the mode after a successful update, which arms can fail, which can change the disk, and which components each mode leaves alone; Exit ignores every key |
| Session.HandleKey | src/main.rs:754-760 | a failed update keeps the mode; a successful one takes the mode `ModeAfter` names; only the save and delete arms change the disk, and each mode leaves the other components alone |
| Session.SessionLoop | src/main.rs:754-765 | the loop ends only after an Esc press handled in the manager, or when the input runs out |
| Session.Start | src/main.rs:715-717 | a missing root fails first, then a short key; otherwise a manager at the root holding the root listing with no cursor, an empty unnamed viewer at the top, and an editor without a text area, sharing the key |
| Session.RunSession | src/main.rs:710-767 | set-up errors in the program's order, then the loop from manager mode, which exits only through Esc in the manager |

## Left out

- The terminal: every `draw_*` function, the layout, `terminal.draw` and
  `read()` with their I/O errors (src/main.rs:592-767). Events are a
  sequence of inputs given to `RunSession`.
- `main`: argument parsing, the password prompt and raw-mode set-up and
  teardown (src/main.rs:769-807).
- The real filesystem is replaced by the `Disk` value:
  - `read_dir`'s per-entry errors, which the program skips, are not
    modelled;
  - permission errors and other failures of a call on an entry of the
    right kind are not modelled;
  - `join` of a name holding `/`, `..` or an absolute path is not
    modelled: names are single components.
- Manage.FileManager.CreateFile: a `write_all` that fails after
  `File::create` succeeded is not modelled. The program would leave a
  partial file that is not recorded; the model only fails at create time,
  with nothing changed.
- The clock: the default file name `Utc::now().to_rfc3339()` and the new
  file's modification time are parameters (`name`, `now`).
- `TextArea::input`: its key-editing behaviour belongs to a foreign
  library. The lines it produces are a parameter (`edited`).
- The `Display` help strings of `Mode` (src/main.rs:461-495).
- The getters `get_root`, `get_current`, `get_entities_ref`,
  `get_selected_id`, `get_name`, `get_entity_ref`, `get_scroll`,
  `get_textarea_ref` and `get_textarea_mut` are field reads.
- Path display: `file_name().to_str()` is modelled as "the last component
  when it is UTF-8". Lossy conversions are not modelled.
- Session.HandleKey: states the mode, errors, disk and untouched components
  common to all modes. The per-arm effects are in `UpdateManager`,
  `UpdateViewer` and `UpdateEditor`.
- View.EncryptedFileShowsText: covers `set_entity` alone. A file reaches
  it as binary only when its bytes are not UTF-8; the whole path from the
  file to the screen is `Session.EncryptedFileOpens`.
- Session.Update: states the mode, errors, disk and untouched components
  common to all modes. The per-arm effects are in `UpdateManager`,
  `UpdateViewer` and `UpdateEditor`.
- Edit.Editor.FinishEncrypt: requires the key to cover the text, because
  `crypt_add` indexes the key and would panic. The session only builds an
  editor once the viewer has accepted the key.
