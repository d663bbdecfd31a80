/** The session: the mode machine that routes each key press to the manager,
    the viewer or the editor (`update`), and the loop that feeds it key
    presses until the user leaves (`run_session`). */
module Session {
  import opened Base
  import opened Utf8
  import opened Cipher
  import opened Paths
  import opened FileSystem
  import Manage
  import View
  import Edit

  /** `Mode` */
  datatype Mode = Manager | Viewer | Editor | Exit

  /** The key codes the program tells apart; every other code is `OtherKey`. */
  datatype KeyCode = Esc | Up | Down | Enter | Char(c: char) | OtherKey

  /** A key press. `controlOnly` holds when the modifiers are exactly
      Control, the only modifier test the program makes. */
  datatype KeyEvent = KeyEvent(code: KeyCode, controlOnly: bool)

  /** The arm of `update` a key press takes. */
  datatype Command =
    // manager mode
    | Quit | CursorUp | CursorDown | Activate | OpenEditor | NewText | DeleteEntry | Ignore
    // viewer mode
    | ScrollBack | ScrollOn | CloseViewer
    // editor mode
    | CloseEditor | Save | SaveEncrypted | Type
    // exit mode
    | Halt

  /** Which arm of `update` handles `key` in `mode`. The manager and the
      viewer look at the key code only; the editor's save keys need the
      modifiers to be exactly Control. */
  function Route(mode: Mode, key: KeyEvent): (r: Command)
    ensures mode == Viewer <==> r in {ScrollBack, ScrollOn, CloseViewer}
    ensures mode == Editor <==> r in {CloseEditor, Save, SaveEncrypted, Type}
    ensures mode == Exit <==> r == Halt
  {
    match mode
    case Manager =>
      (match key.code
       case Esc => Quit
       case Up => CursorUp
       case Down => CursorDown
       case Enter => Activate
       case Char(c) =>
         if c == 'e' || c == 'E' then OpenEditor
         else if c == 'n' || c == 'N' then NewText
         else if c == 'd' || c == 'D' then DeleteEntry
         else Ignore
       case OtherKey => Ignore)
    case Viewer =>
      (match key.code
       case Up => ScrollBack
       case Down => ScrollOn
       case _ => CloseViewer)
    case Editor =>
      if key.code == Esc then CloseEditor
      else if key.controlOnly && (key.code == Char('s') || key.code == Char('S')) then Save
      else if key.controlOnly && (key.code == Char('e') || key.code == Char('E')) then SaveEncrypted
      else Type
    case Exit => Halt
  }

  /** The mode `update` returns when the arm succeeds; `fileOpened` says whether
      the manager's action handed back a file's content. */
  function ModeAfter(cmd: Command, fileOpened: bool): (r: Mode)
    ensures r == Exit <==> cmd in {Quit, Halt}
    ensures r == Viewer <==> cmd in {ScrollBack, ScrollOn} || (cmd == Activate && fileOpened)
  {
    match cmd
    case Quit => Exit
    case Activate => if fileOpened then Viewer else Manager
    case OpenEditor => Editor
    case NewText => Editor
    case ScrollBack => Viewer
    case ScrollOn => Viewer
    case Type => Editor
    case Halt => Exit
    case _ => Manager
  }

  /** The arms that can end in an error. */
  predicate Fallible(cmd: Command) {
    cmd == Activate || cmd == DeleteEntry || cmd == Save || cmd == SaveEncrypted
  }

  /** The arms that can change the disk. */
  predicate Writes(cmd: Command) {
    cmd == DeleteEntry || cmd == Save || cmd == SaveEncrypted
  }

  /** The action opens a file exactly when a text file is selected. */
  predicate Opens(sel: Option<Manage.Entity>) {
    sel.Some? && sel.value.TextFile?
  }

  /** The session ends only by Esc in the manager, and once ended stays so. */
  lemma ExitOnlyByEsc(mode: Mode, key: KeyEvent, fileOpened: bool)
    ensures ModeAfter(Route(mode, key), fileOpened) == Exit <==> mode == Exit || (mode == Manager && key.code == Esc)
  {
  }

  /** In the viewer, Up and Down scroll and keep the viewer; every other key
      closes it and returns to the manager. */
  lemma ViewerKeys(key: KeyEvent, fileOpened: bool)
    ensures ModeAfter(Route(Viewer, key), fileOpened) == Viewer <==> key.code == Up || key.code == Down
    ensures ModeAfter(Route(Viewer, key), fileOpened) != Viewer ==> ModeAfter(Route(Viewer, key), fileOpened) == Manager
  {
  }

  /** In the editor, Esc (whatever the modifiers) and Control+S/E leave for
      the manager; every other key, including S or E with other modifiers,
      goes to the text area. */
  lemma EditorKeys(key: KeyEvent, fileOpened: bool)
    ensures var next := ModeAfter(Route(Editor, key), fileOpened);
      && (next == Manager <==> key.code == Esc || (key.controlOnly && key.code in {Char('s'), Char('S'), Char('e'), Char('E')}))
      && (next != Manager ==> next == Editor && Route(Editor, key) == Type)
  {
  }

  /** E and N enter the editor from the manager whatever the modifiers, so
      Control+E there opens the editor rather than saving anything; only N
      starts a fresh text area. */
  lemma ManagerEntersEditor(key: KeyEvent, fileOpened: bool)
    ensures ModeAfter(Route(Manager, key), fileOpened) == Editor <==> key.code in {Char('e'), Char('E'), Char('n'), Char('N')}
    ensures Route(Manager, key) == NewText <==> key.code in {Char('n'), Char('N')}
    ensures !Writes(Route(Manager, key)) || Route(Manager, key) == DeleteEntry
  {
  }

  /** How `update` shows what the manager's action read. */
  function Shown(resp: Manage.Respond): (e: View.ViewerEntity)
    requires !resp.Empty?
    ensures resp.Text? ==> e == View.Text(resp.text)
    ensures resp.Bin? ==> e == View.Binary(resp.bytes)
  {
    if resp.Text? then View.Text(resp.text) else View.Binary(resp.bytes)
  }

  /** The text the editor hands over when it is finished. */
  function SavedText(area: Option<seq<Str>>): seq<byte> {
    if area.Some? then Edit.Join(area.value) else []
  }

  /** The bytes the editor hands over when it is finished encrypted: no
      bytes at all without a text area. */
  function SavedCipher(area: Option<seq<Str>>, key: Str): seq<byte>
    requires KeyPeriod <= |key|
  {
    if area.Some? then Encode(Edit.Join(area.value), key) else []
  }

  /** What Enter on the text-file entry at `p` puts on screen: its text
      when the file holds UTF-8, otherwise what `set_entity` makes of its
      bytes. */
  lemma OpenedFileShows(disk: Disk, p: Path, key: Str)
    requires KeyPeriod <= |key| && IsFile(disk, p)
    ensures var c := disk.nodes[p].content;
      && Manage.ReadEntity(disk, p).Success?
      && (ValidUtf8(c) ==> View.Classify(Shown(Manage.ReadEntity(disk, p).value), key) == View.Text(c))
      && (!ValidUtf8(c) ==> View.Classify(Shown(Manage.ReadEntity(disk, p).value), key) == View.Classify(View.Binary(c), key))
  {
  }

  /** A text saved with Ctrl+S opens again as that text under its own name. */
  lemma WrittenTextOpens(disk: Disk, dir: Path, name: Component, t: Str, now: int, key: Str)
    requires KeyPeriod <= |key| && WriteFile(disk, dir, name, t, now).Success?
    ensures var d := WriteFile(disk, dir, name, t, now).value;
      && Manage.ReadEntity(d, Child(dir, name)) == Success(Manage.Text(t))
      && View.Classify(Shown(Manage.ReadEntity(d, Child(dir, name)).value), key) == View.Text(t)
    ensures ValidUtf8(name) ==> Manage.NameOf(Manage.TextFile(Child(dir, name))) == Some(name)
  {
  }

  /** A file holding the encryption of `t` under the session key opens as
      `t` exactly when the ciphertext is not itself UTF-8: `read_to_string`
      comes first, and a ciphertext that happens to be UTF-8 is shown as
      it is, encrypted. */
  lemma EncryptedFileOpens(disk: Disk, p: Path, t: Str, key: Str)
    requires KeyPeriod <= |key| && IsFile(disk, p) && disk.nodes[p].content == Encode(t, key)
    ensures var shown := View.Classify(Shown(Manage.ReadEntity(disk, p).value), key);
      && (shown == View.DecryptedText(t) <==> !ValidUtf8(Encode(t, key)))
      && (ValidUtf8(Encode(t, key)) ==> shown == View.Text(Encode(t, key)))
  {
    OpenedFileShows(disk, p, key);
    if !ValidUtf8(Encode(t, key)) {
      View.EncryptedFileShowsText(t, key);
    }
  }

  /** An instance of the second case: "12345" encrypted with the key "AAAAA"
      is "rstuv", which is UTF-8, so the file is shown as "rstuv". */
  lemma AsciiCipherOpensEncrypted(disk: Disk, p: Path, t: Str, key: Str)
    requires key == [0x41, 0x41, 0x41, 0x41, 0x41] && t == [0x31, 0x32, 0x33, 0x34, 0x35]
    requires IsFile(disk, p) && disk.nodes[p].content == Encode(t, key)
    ensures disk.nodes[p].content == [0x72, 0x73, 0x74, 0x75, 0x76]
    ensures ValidUtf8(disk.nodes[p].content)
    ensures View.Classify(Shown(Manage.ReadEntity(disk, p).value), key) == View.Text(disk.nodes[p].content)
    ensures View.Classify(Shown(Manage.ReadEntity(disk, p).value), key) != View.DecryptedText(t)
  {
    var c := Encode(t, key);
    assert c[0] == 0x72 && c[1] == 0x73 && c[2] == 0x74 && c[3] == 0x75 && c[4] == 0x76;
    assert c == [0x72, 0x73, 0x74, 0x75, 0x76];
    AsciiValid(c);
    EncryptedFileOpens(disk, p, t, key);
  }

  /** What `action` does to the manager for the selected entry `sel`: a
      folder, Back or Root enters its destination when that is a directory
      and otherwise fails with nothing changed; no selection, a text file and
      Back at the top leave the manager as it was. */
  ghost predicate Navigated(sel: Option<Manage.Entity>, before: Manage.Snapshot, after: Manage.Snapshot,
                            root: Path, disk: Disk, r: Result<Mode, IoError>)
  {
    var dest := if sel.Some? then Manage.Destination(sel.value, before.current, root) else None;
    && (dest.None? ==> after == before)
    && (dest.None? && !Opens(sel) ==> r == Success(Manager))
    && (dest.Some? && IsDir(disk, dest.value) ==>
          r == Success(Manager)
          && after == Manage.Snapshot(dest.value, Manage.Listing(disk, dest.value, root), None, before.created))
    && (dest.Some? && !IsDir(disk, dest.value) ==> r == Failure(NotADirectory) && after == before)
  }

  /** What `delete_selected` does to the manager and the disk for the
      selected entry `sel`: a refused delete changes nothing; otherwise the
      records and the disk are those of `DeleteEffect`, and the current
      directory is listed again with the cursor kept if it still fits. */
  ghost predicate Deleted(sel: Option<Manage.Entity>, before: Manage.Snapshot, after: Manage.Snapshot,
                          root: Path, disk: Disk, disk': Disk, r: Result<Mode, IoError>)
  {
    var eff := Manage.DeleteEffect(sel, before.created, disk);
    && (eff.Failure? ==> r == Failure(eff.error) && disk' == disk && after == before)
    && (eff.Success? ==>
          && disk' == eff.value.1 && after.created == eff.value.0 && after.current == before.current
          && (r.Success? <==> IsDir(disk', before.current))
          && (r.Success? ==> r.value == Manager
                             && after.entities == Manage.Listing(disk', before.current, root)
                             && after.selected == Manage.KeepSelection(before.selected, |after.entities|))
          && (r.Failure? ==> r.error == NotADirectory
                             && after.entities == before.entities && after.selected == before.selected))
  }

  /** What the Enter arm does to the viewer for the selected entry `sel`: a
      text file that reads is shown from the top under its name, one that
      does not read fails with the viewer unchanged; other entries leave the
      viewer alone. */
  ghost predicate Opened(sel: Option<Manage.Entity>, disk: Disk, key: Str,
                         before: View.Screen, after: View.Screen, r: Result<Mode, IoError>)
    requires KeyPeriod <= |key|
  {
    && (!Opens(sel) ==> after == before)
    && (Opens(sel) ==>
          var read := Manage.ReadEntity(disk, sel.value.path);
          && (read.Failure? ==> r == Failure(read.error) && after == before)
          && (read.Success? ==> r == Success(Viewer)
                                && after == View.Screen(Manage.NameOf(sel.value), View.Classify(Shown(read.value), key), 0)))
  }

  /** The Enter arm of the manager: act on the selected entry and, when that
      yields content, show it in the viewer under the entry's name. */
  method ActivateSelected(m: Manage.FileManager, v: View.Viewer, disk: Disk) returns (r: Result<Mode, IoError>)
    requires m.Valid() && v.Valid()
    modifies m, v
    ensures m.Valid() && v.Valid()
    ensures r.Success? ==> r.value == ModeAfter(Activate, Opens(old(m.SelectedEntity())))
    ensures Navigated(old(m.SelectedEntity()), old(m.State()), m.State(), m.root, disk, r)
    ensures Opened(old(m.SelectedEntity()), disk, v.key, old(v.State()), v.State(), r)
  {
    var resp := m.Action(disk);
    if resp.Failure? {
      r := Failure(resp.error);
    } else if resp.value.Empty? {
      r := Success(Manager);
    } else {
      v.SetEntity(Shown(resp.value), m.SelectedEntityName());
      r := Success(Viewer);
    }
  }

  /** The delete arm of the manager: `delete_selected`, whose error becomes
      the update's error. */
  method DeleteSelectedEntry(m: Manage.FileManager, disk: Disk) returns (disk': Disk, r: Result<Mode, IoError>)
    requires m.Valid()
    modifies m
    ensures m.Valid()
    ensures Deleted(old(m.SelectedEntity()), old(m.State()), m.State(), m.root, disk, disk', r)
  {
    var out;
    disk', out := m.DeleteSelected(disk);
    r := if out.Fail? then Failure(out.error) else Success(Manager);
  }

  /** The Up and Down arms of the manager: move the cursor and nothing else. */
  method MoveCursor(m: Manage.FileManager, up: bool)
    requires m.Valid()
    modifies m`selected
    ensures m.Valid()
    ensures up ==> m.State() == old(m.State()).(selected := Manage.PrevIndex(old(m.selected), |old(m.entities)|))
    ensures !up ==> m.State() == old(m.State()).(selected := Manage.NextIndex(old(m.selected), |old(m.entities)|))
  {
    if up {
      m.Previous();
    } else {
      m.Next();
    }
  }

  /** `update` in manager mode. The manager and the viewer look at the key
      code only. */
  method UpdateManager(key: KeyEvent, m: Manage.FileManager, v: View.Viewer, ed: Edit.Editor, disk: Disk)
    returns (disk': Disk, r: Result<Mode, IoError>)
    requires m.Valid() && v.Valid()
    modifies m, v, ed
    ensures m.Valid() && v.Valid()
    ensures r.Success? ==> r.value == ModeAfter(Route(Manager, key), Opens(old(m.SelectedEntity())))
    ensures !Fallible(Route(Manager, key)) ==> r.Success?
    ensures Route(Manager, key) != DeleteEntry ==> disk' == disk
    ensures var cmd := Route(Manager, key);
      && (cmd in {Quit, Ignore, OpenEditor} ==> unchanged(m) && unchanged(v) && unchanged(ed))
      && (cmd == CursorUp ==> m.State() == old(m.State()).(selected := Manage.PrevIndex(old(m.selected), |old(m.entities)|))
                               && unchanged(v) && unchanged(ed))
      && (cmd == CursorDown ==> m.State() == old(m.State()).(selected := Manage.NextIndex(old(m.selected), |old(m.entities)|))
                                 && unchanged(v) && unchanged(ed))
      && (cmd == NewText ==> ed.textarea == Some([[]]) && unchanged(m) && unchanged(v))
    ensures Route(Manager, key) == DeleteEntry ==>
      && unchanged(v) && unchanged(ed)
      && Deleted(old(m.SelectedEntity()), old(m.State()), m.State(), m.root, disk, disk', r)
    ensures Route(Manager, key) == Activate ==>
      && unchanged(ed)
      && Navigated(old(m.SelectedEntity()), old(m.State()), m.State(), m.root, disk, r)
      && Opened(old(m.SelectedEntity()), disk, v.key, old(v.State()), v.State(), r)
  {
    disk' := disk;
    match Route(Manager, key) {
      case Quit =>
        r := Success(Exit);
      case CursorUp =>
        MoveCursor(m, true);
        r := Success(Manager);
      case CursorDown =>
        MoveCursor(m, false);
        r := Success(Manager);
      case Activate =>
        r := ActivateSelected(m, v, disk);
      case OpenEditor =>
        r := Success(Editor);
      case NewText =>
        ed.Init();
        r := Success(Editor);
      case DeleteEntry =>
        disk', r := DeleteSelectedEntry(m, disk);
      case Ignore =>
        r := Success(Manager);
      case _ =>
        assert false;
    }
  }

  /** `update` in viewer mode: Up and Down scroll by one line, any other key
      clears the viewer and returns to the manager. */
  method UpdateViewer(key: KeyEvent, v: View.Viewer) returns (r: Result<Mode, IoError>)
    modifies v
    ensures r == Success(ModeAfter(Route(Viewer, key), false))
    ensures var cmd := Route(Viewer, key);
      && (cmd == ScrollBack ==> v.scroll == View.ScrolledUp(old(v.scroll), 1)
                                 && v.entity == old(v.entity) && v.name == old(v.name))
      && (cmd == ScrollOn ==> v.scroll == View.ScrolledDown(old(v.scroll), 1)
                               && v.entity == old(v.entity) && v.name == old(v.name))
      && (cmd == CloseViewer ==> v.entity == View.Text([]) && v.name == None && v.scroll == 0)
  {
    match key.code {
      case Up =>
        v.ScrollUp(1);
        r := Success(Viewer);
      case Down =>
        v.ScrollDown(1);
        r := Success(Viewer);
      case _ =>
        v.Clear();
        r := Success(Manager);
    }
  }

  /** The outcome of storing `data` as `name` in the current directory at
      time `now` through `create_file`: on success the new disk, one more
      created record and the directory listed again with the cursor kept if
      it still fits; otherwise the write's error and nothing changed. */
  ghost predicate Saved(before: Manage.Snapshot, after: Manage.Snapshot, root: Path, disk: Disk, disk': Disk,
                        r: Result<Mode, IoError>, name: Component, data: seq<byte>, now: int)
  {
    var w := WriteFile(disk, before.current, name, data, now);
    && (w.Failure? ==> r == Failure(w.error) && disk' == disk && after == before)
    && (w.Success? ==>
          && r == Success(Manager) && disk' == w.value && after.current == before.current
          && after.created == before.created + [Manage.TextFile(Child(before.current, name))]
          && after.entities == Manage.Listing(w.value, before.current, root)
          && after.selected == Manage.KeepSelection(before.selected, |after.entities|))
  }

  /** The two save arms of the editor: finish the text area, plain or
      encrypted with the key, and store the result as a new file. */
  method SaveTextArea(m: Manage.FileManager, ed: Edit.Editor, disk: Disk, encrypt: bool, name: Component, now: int)
    returns (disk': Disk, r: Result<Mode, IoError>)
    requires m.Valid() && KeyPeriod <= |ed.key|
    modifies m, ed
    ensures m.Valid() && ed.textarea == None
    ensures !encrypt ==> Saved(old(m.State()), m.State(), m.root, disk, disk', r, name, SavedText(old(ed.textarea)), now)
    ensures encrypt ==> Saved(old(m.State()), m.State(), m.root, disk, disk', r, name, SavedCipher(old(ed.textarea), ed.key), now)
  {
    var out;
    if encrypt {
      var data := ed.FinishEncrypt();
      disk', out := m.CreateFile(disk, data, name, now);
    } else {
      var text := ed.Finish();
      disk', out := m.CreateFile(disk, text, name, now);
    }
    r := if out.Fail? then Failure(out.error) else Success(Manager);
  }

  /** `update` in editor mode. `edited` stands for what the text area makes
      of the key, `name` for the timestamp name of a new file and `now` for
      the clock. Saving takes the text area even when the write then
      fails. */
  method UpdateEditor(key: KeyEvent, m: Manage.FileManager, ed: Edit.Editor,
                      disk: Disk, edited: seq<Str>, name: Component, now: int)
    returns (disk': Disk, r: Result<Mode, IoError>)
    requires m.Valid() && KeyPeriod <= |ed.key|
    modifies m, ed
    ensures m.Valid()
    ensures r.Success? ==> r.value == ModeAfter(Route(Editor, key), false)
    ensures !Fallible(Route(Editor, key)) ==> r.Success?
    ensures !Writes(Route(Editor, key)) ==> disk' == disk
    ensures Route(Editor, key) == CloseEditor ==> unchanged(m) && unchanged(ed)
    ensures Route(Editor, key) == Type ==>
      unchanged(m) && ed.textarea == (if old(ed.textarea).Some? then Some(edited) else None)
    ensures Route(Editor, key) == Save || Route(Editor, key) == SaveEncrypted ==> ed.textarea == None
    ensures Route(Editor, key) == Save ==>
      Saved(old(m.State()), m.State(), m.root, disk, disk', r, name, SavedText(old(ed.textarea)), now)
    ensures Route(Editor, key) == SaveEncrypted ==>
      Saved(old(m.State()), m.State(), m.root, disk, disk', r, name, SavedCipher(old(ed.textarea), ed.key), now)
  {
    disk' := disk;
    match Route(Editor, key) {
      case CloseEditor =>
        r := Success(Manager);
      case Save =>
        disk', r := SaveTextArea(m, ed, disk, false, name, now);
      case SaveEncrypted =>
        disk', r := SaveTextArea(m, ed, disk, true, name, now);
      case Type =>
        ed.Input(edited);
        r := Success(Editor);
      case _ =>
        assert false;
    }
  }

  /** `update`: one key press in one mode; each mode's arms are the methods
      above, and the exit mode ignores every key. */
  method Update(key: KeyEvent, mode: Mode, m: Manage.FileManager, v: View.Viewer, ed: Edit.Editor,
                disk: Disk, edited: seq<Str>, name: Component, now: int)
    returns (disk': Disk, r: Result<Mode, IoError>)
    requires m.Valid() && v.Valid() && ed.key == v.key
    modifies m, v, ed
    ensures m.Valid() && v.Valid()
    ensures r.Success? ==> r.value == ModeAfter(Route(mode, key), Opens(old(m.SelectedEntity())))
    ensures !Fallible(Route(mode, key)) ==> r.Success?
    ensures !Writes(Route(mode, key)) ==> disk' == disk
    ensures mode == Viewer ==> unchanged(m) && unchanged(ed)
    ensures mode == Editor ==> unchanged(v)
    ensures mode == Exit ==> unchanged(m) && unchanged(v) && unchanged(ed)
  {
    match mode {
      case Manager =>
        disk', r := UpdateManager(key, m, v, ed, disk);
      case Viewer =>
        disk' := disk;
        r := UpdateViewer(key, v);
      case Editor =>
        disk', r := UpdateEditor(key, m, ed, disk, edited, name, now);
      case Exit =>
        disk' := disk;
        r := Success(Exit);
    }
  }

  /** One turn of `run_session`'s loop for a key press: `update`, then the
      new mode on success, or the old mode with the error as the status. */
  method HandleKey(key: KeyEvent, mode: Mode, m: Manage.FileManager, v: View.Viewer, ed: Edit.Editor,
                   disk: Disk, edited: seq<Str>, name: Component, now: int)
    returns (disk': Disk, mode': Mode, status: Outcome<IoError>)
    requires m.Valid() && v.Valid() && ed.key == v.key
    modifies m, v, ed
    ensures m.Valid() && v.Valid()
    ensures status.Fail? ==> mode' == mode
    ensures status.Pass? ==> mode' == ModeAfter(Route(mode, key), Opens(old(m.SelectedEntity())))
    ensures !Fallible(Route(mode, key)) ==> status.Pass?
    ensures !Writes(Route(mode, key)) ==> disk' == disk
    ensures mode == Viewer ==> unchanged(m) && unchanged(ed)
    ensures mode == Editor ==> unchanged(v)
    ensures mode == Exit ==> unchanged(m) && unchanged(v) && unchanged(ed)
  {
    var next;
    disk', next := Update(key, mode, m, v, ed, disk, edited, name, now);
    match next {
      case Success(newMode) =>
        status := Pass;
        mode' := newMode;
      case Failure(err) =>
        status := Fail(err);
        mode' := mode;
    }
  }

  /** One event read from the terminal: a key press, with what the text area,
      the file-name clock and the file clock make of it, or anything else. */
  datatype Input = Press(key: KeyEvent, edited: seq<Str>, name: Component, now: int) | NonKey

  /** The input loop of `run_session`: handle `inputs` in order until the
      mode is Exit. A failed update keeps the mode. `used` counts the inputs
      consumed; `before` is the mode the last key press was handled in. */
  method SessionLoop(m: Manage.FileManager, v: View.Viewer, ed: Edit.Editor, disk: Disk, inputs: seq<Input>)
    returns (disk': Disk, mode: Mode, used: nat, ghost before: Mode)
    requires m.Valid() && v.Valid() && ed.key == v.key
    modifies m, v, ed
    ensures used <= |inputs|
    ensures mode != Exit ==> used == |inputs|
    ensures mode == Exit ==>
      && 0 < used && inputs[used - 1].Press? && inputs[used - 1].key.code == Esc
      && before == Manager
  {
    disk' := disk;
    mode := Manager;
    used := 0;
    before := Manager;
    while used < |inputs| && mode != Exit
      invariant used <= |inputs|
      invariant m.Valid() && v.Valid() && ed.key == v.key
      invariant mode == Exit ==>
        && 0 < used && inputs[used - 1].Press? && inputs[used - 1].key.code == Esc
        && before == Manager
      decreases |inputs| - used
    {
      match inputs[used] {
        case Press(k, edited, name, now) =>
          ghost var fileOpened := Opens(m.SelectedEntity());
          before := mode;
          var status;
          disk', mode, status := HandleKey(k, mode, m, v, ed, disk', edited, name, now);
          if mode == Exit {
            ExitOnlyByEsc(before, k, fileOpened);
          }
        case NonKey =>
      }
      used := used + 1;
    }
  }

  /** The set-up of `run_session`: a manager opened at `root` (a missing
      directory is the first error), then a viewer and an editor for `key` (a
      short key is the second). */
  method Start(disk: Disk, root: Path, key: Str)
    returns (r: Result<(Manage.FileManager, View.Viewer, Edit.Editor), IoError>)
    ensures !IsDir(disk, root) ==> r == Failure(NotADirectory)
    ensures IsDir(disk, root) && |key| < KeyPeriod ==> r == Failure(InvalidKey)
    ensures IsDir(disk, root) && KeyPeriod <= |key| ==> r.Success?
    ensures r.Success? ==>
      var (m, v, ed) := r.value;
      && fresh(m) && fresh(v) && fresh(ed)
      && m.Valid() && m.root == root && m.current == root && m.selected == None && m.created == []
      && m.entities == Manage.Listing(disk, root, root)
      && v.Valid() && v.key == key && v.State() == View.Screen(None, View.Text([]), 0)
      && ed.key == key && ed.textarea == None
  {
    var manager := Manage.FileManager.Open(disk, root);
    if manager.Failure? {
      return Failure(manager.error);
    }
    var viewer := View.Viewer.New(key);
    if viewer.Failure? {
      return Failure(viewer.error);
    }
    var ed := new Edit.Editor(key);
    r := Success((manager.value, viewer.value, ed));
  }

  /** `run_session`: set up, then run the input loop from manager mode. */
  method RunSession(disk: Disk, root: Path, key: Str, inputs: seq<Input>)
    returns (disk': Disk, r: Outcome<IoError>, mode: Mode, used: nat, ghost before: Mode)
    ensures !IsDir(disk, root) ==> r == Fail(NotADirectory)
    ensures IsDir(disk, root) && |key| < KeyPeriod ==> r == Fail(InvalidKey)
    ensures IsDir(disk, root) && KeyPeriod <= |key| ==> r == Pass
    ensures r.Fail? ==> disk' == disk && used == 0 && mode == Manager
    ensures used <= |inputs|
    ensures mode != Exit ==> r.Fail? || used == |inputs|
    ensures mode == Exit ==>
      && 0 < used && inputs[used - 1].Press? && inputs[used - 1].key.code == Esc
      && before == Manager
  {
    var started := Start(disk, root, key);
    match started {
      case Failure(err) =>
        return disk, Fail(err), Manager, 0, Manager;
      case Success((m, v, ed)) =>
        disk', mode, used, before := SessionLoop(m, v, ed, disk, inputs);
        r := Pass;
    }
  }
}
