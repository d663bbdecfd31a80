/** The viewer pane: what is shown, under which name, and how far it is
    scrolled. Binary content is shown decrypted whenever the session key
    turns it into UTF-8 text. */
module View {
  import opened Base
  import opened Utf8
  import opened Cipher

  /** `ViewerEntity` */
  datatype ViewerEntity = Text(text: Str) | DecryptedText(plain: Str) | Binary(bytes: seq<byte>)

  /** What `set_entity` stores for an entity: binary content that decrypts to
      UTF-8 under `key` becomes decrypted text, anything else is kept. */
  function Classify(e: ViewerEntity, key: Str): (r: ViewerEntity)
    requires KeyPeriod <= |key|
    ensures e.Text? || e.DecryptedText? ==> r == e
    ensures e.Binary? ==> r.DecryptedText? || r == e
    ensures e.Binary? ==> (r.DecryptedText? <==> ValidUtf8(Decode(e.bytes, key)))
    ensures r.DecryptedText? && e.Binary? ==> r.plain == Decode(e.bytes, key)
  {
    match e
    case Binary(bin) =>
      (match TryDecrypt(bin, key)
       case Success(text) => DecryptedText(text)
       case Failure(_) => Binary(bin))
    case _ => e
  }

  /** Binary content is shown decrypted exactly when it is the encryption of
      some text under the session key, and then it shows that text. */
  lemma ClassifyBinary(bin: seq<byte>, key: Str)
    requires KeyPeriod <= |key|
    ensures Classify(Binary(bin), key).DecryptedText? <==> exists t: Str :: |t| == |bin| && Encode(t, key) == bin
    ensures Classify(Binary(bin), key).DecryptedText? ==>
      Encode(Classify(Binary(bin), key).plain, key) == bin
  {
    DecryptsIffEncryptedText(bin, key);
    if TryDecrypt(bin, key).Success? {
      var t := TryDecrypt(bin, key).value;
      EncodeDecode(bin, key);
      assert t == Decode(bin, key);
    }
  }

  /** `set_entity` shows binary content that is the encryption of a text
      under the session key as that text. Whether an encrypted file reaches
      `set_entity` as binary at all depends on the read that precedes it
      (see `Session.EncryptedFileOpens`). */
  lemma EncryptedFileShowsText(t: Str, key: Str)
    requires KeyPeriod <= |key|
    ensures Classify(Binary(Encode(t, key)), key) == DecryptedText(t)
  {
    EncryptedTextDecrypts(t, key);
  }

  /** `checked_sub` falling back to the old offset: scrolling up stops at the
      top instead of wrapping. */
  function ScrolledUp(s: u16, v: u16): (r: u16)
    ensures r <= s
    ensures v <= s ==> r as int == s as int - v as int
    ensures s < v ==> r == s
  {
    if v <= s then s - v else s
  }

  /** `checked_add` falling back to the old offset: scrolling down stops
      before the `u16` limit instead of wrapping. */
  function ScrolledDown(s: u16, v: u16): (r: u16)
    ensures r >= s
    ensures s as int + v as int < 0x1_0000 ==> r as int == s as int + v as int
    ensures s as int + v as int >= 0x1_0000 ==> r == s
  {
    if s as int + v as int < 0x1_0000 then s + v else s
  }

  /** Scrolling down then up by the same amount, or up then down, returns to
      the same offset when the first move was not refused. */
  lemma ScrollRoundTrip(s: u16, v: u16)
    ensures s as int + v as int < 0x1_0000 ==> ScrolledUp(ScrolledDown(s, v), v) == s
    ensures v <= s ==> ScrolledDown(ScrolledUp(s, v), v) == s
  {
  }

  /** The fields of a `Viewer` that its methods update, as one value. */
  datatype Screen = Screen(name: Option<Str>, entity: ViewerEntity, scroll: u16)

  class Viewer {
    var name: Option<Str>
    var entity: ViewerEntity
    var scroll: u16
    const key: Str

    /** A viewer only exists for a key that covers every position of the
        five-byte cycle. */
    ghost predicate Valid()
      reads this
    {
      KeyPeriod <= |key|
    }

    function State(): Screen
      reads this
    {
      Screen(name, entity, scroll)
    }

    constructor Init(key: Str)
      requires KeyPeriod <= |key|
      ensures Valid() && this.key == key
      ensures name == None && entity == Text([]) && scroll == 0
    {
      this.key := key;
      name := None;
      entity := Text([]);
      scroll := 0;
    }

    /** `Viewer::new`: a key shorter than five bytes is refused. */
    static method New(key: Str) returns (r: Result<Viewer, IoError>)
      ensures r.Failure? <==> |key| < KeyPeriod
      ensures r.Failure? ==> r.error == InvalidKey
      ensures r.Success? ==> fresh(r.value) && r.value.Valid() && r.value.key == key
      ensures r.Success? ==> r.value.name == None && r.value.entity == Text([]) && r.value.scroll == 0
    {
      if |key| < KeyPeriod {
        return Failure(InvalidKey);
      }
      var v := new Viewer.Init(key);
      r := Success(v);
    }

    /** `set_entity`: show `e` from the top, decrypting binary content when
        the key turns it into text. */
    method SetEntity(e: ViewerEntity, name: Option<Str>)
      requires Valid()
      modifies this`name, this`entity, this`scroll
      ensures Valid()
      ensures this.name == name && scroll == 0
      ensures entity == Classify(e, key)
    {
      this.name := name;
      scroll := 0;
      match e {
        case Text(_) => entity := e;
        case DecryptedText(_) => entity := e;
        case Binary(bin) =>
          var decrypted := DecryptBinary(bin, key);
          match decrypted {
            case Success(text) => entity := DecryptedText(text);
            case Failure(_) => entity := Binary(bin);
          }
      }
    }

    method ScrollUp(value: u16)
      modifies this`scroll
      ensures scroll == ScrolledUp(old(scroll), value)
    {
      if value <= scroll {
        scroll := scroll - value;
      }
    }

    method ScrollDown(value: u16)
      modifies this`scroll
      ensures scroll == ScrolledDown(old(scroll), value)
    {
      if scroll as int + value as int < 0x1_0000 {
        scroll := scroll + value;
      }
    }

    /** `clear`: back to the empty, unnamed text at the top. */
    method Clear()
      modifies this`name, this`entity, this`scroll
      ensures name == None && entity == Text([]) && scroll == 0
    {
      name := None;
      entity := Text([]);
      scroll := 0;
    }
  }
}
