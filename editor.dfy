/** The editor pane: an optional text area, held as its lines, and the two
    ways of finishing it — as plain text, or encrypted with the session key. */
module Edit {
  import opened Base
  import opened Utf8
  import opened Cipher

  /** `join("\n")`: the lines with one newline between neighbours. */
  function Join(lines: seq<seq<byte>>): (r: seq<byte>)
    ensures lines == [] ==> r == []
    ensures |lines| == 1 ==> r == lines[0]
  {
    if lines == [] then []
    else if |lines| == 1 then lines[0]
    else lines[0] + [Newline] + Join(lines[1..])
  }

  /** The text split at every newline; the reference `Join` is checked
      against. */
  function Lines(s: seq<byte>): (r: seq<seq<byte>>)
    ensures |r| >= 1
    ensures forall l | l in r :: Newline !in l
    decreases |s|
  {
    match IndexOf(s, Newline)
    case None => [s]
    case Some(i) => [s[..i]] + Lines(s[i + 1..])
  }

  /** Joining UTF-8 lines gives UTF-8 text. */
  lemma {:induction false} JoinValid(lines: seq<seq<byte>>)
    requires forall l | l in lines :: ValidUtf8(l)
    ensures ValidUtf8(Join(lines))
  {
    if |lines| > 1 {
      JoinValid(lines[1..]);
      AsciiValid([Newline]);
      ConcatValid(lines[0], [Newline]);
      ConcatValid(lines[0] + [Newline], Join(lines[1..]));
    }
  }

  /** Splitting a text at its newlines and joining the pieces gives the text
      back. */
  lemma {:induction false} JoinLines(s: seq<byte>)
    ensures Join(Lines(s)) == s
    decreases |s|
  {
    match IndexOf(s, Newline)
    case None =>
    case Some(i) =>
      var rest := Lines(s[i + 1..]);
      JoinLines(s[i + 1..]);
      assert ([s[..i]] + rest)[1..] == rest;
      assert Join([s[..i]] + rest) == s[..i] + [Newline] + Join(rest);
      assert s == s[..i] + [Newline] + s[i + 1..];
  }

  /** Lines free of newlines are recovered from their join: saving the text
      area loses nothing but the split itself. */
  lemma {:induction false} LinesJoin(lines: seq<seq<byte>>)
    requires |lines| >= 1
    requires forall l | l in lines :: Newline !in l
    ensures Lines(Join(lines)) == lines
  {
    if |lines| > 1 {
      var s := Join(lines);
      var head := lines[0];
      assert s == head + [Newline] + Join(lines[1..]);
      assert s[..|head|] == head;
      IndexOfFirst(s, Newline, |head|);
      assert s[|head| + 1..] == Join(lines[1..]);
      assert Lines(s) == [head] + Lines(Join(lines[1..]));
      LinesJoin(lines[1..]);
      assert lines == [head] + lines[1..];
    } else {
      assert lines == [lines[0]];
      assert IndexOf(lines[0], Newline) == None;
    }
  }

  class Editor {
    /** The open text area as its lines; `None` while there is none. */
    var textarea: Option<seq<Str>>
    const key: Str

    /** `Editor::new` */
    constructor (key: Str)
      ensures textarea == None && this.key == key
    {
      textarea := None;
      this.key := key;
    }

    /** `init`: a fresh text area, which holds one empty line. */
    method Init()
      modifies this`textarea
      ensures textarea == Some([[]])
    {
      textarea := Some([[]]);
    }

    /** A key handed to the text area: `edited` stands for the lines the text
        area holds after handling it. Without a text area nothing happens. */
    method Input(edited: seq<Str>)
      modifies this`textarea
      ensures textarea == if old(textarea).Some? then Some(edited) else None
    {
      if textarea.Some? {
        textarea := Some(edited);
      }
    }

    /** `finish`: take the text area and return its lines joined; without one,
        the empty text. */
    method Finish() returns (text: Str)
      modifies this`textarea
      ensures textarea == None
      ensures old(textarea).None? ==> text == []
      ensures old(textarea).Some? ==> text == Join(old(textarea).value)
    {
      text := [];
      if textarea.Some? {
        JoinValid(textarea.value);
        text := Join(textarea.value);
      }
      textarea := None;
    }

    /** `finish_encrypt`: take the text area and return its joined lines
        encrypted with the key; without one, no bytes. */
    method FinishEncrypt() returns (data: seq<byte>)
      requires textarea.Some? ==> KeyCovers(key, |Join(textarea.value)|)
      modifies this`textarea
      ensures textarea == None
      ensures old(textarea).None? ==> data == []
      ensures old(textarea).Some? ==> data == Encode(Join(old(textarea).value), key)
    {
      data := [];
      if textarea.Some? {
        JoinValid(textarea.value);
        data := EncryptString(Join(textarea.value), key);
      }
      textarea := None;
    }
  }
}
