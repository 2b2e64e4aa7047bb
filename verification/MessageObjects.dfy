/**
 The message objects, whose fields a deserializer fills in place. Messages with the same fields have
 the same serializer up to their type id, so there is one class for each of the four field lists.
 */
module MessageObjects {
  import opened Basics
  import opened Messages
  import opened Serialization

  /** Ping, Logout, DeleteAccount, ActiveUsers and Success: nothing but the type id. */
  class BareMessage {
    const typeId: byte

    constructor (typeId: byte)
      requires typeId in {PING, LOGOUT, DELETE_ACCOUNT, ACTIVE_USERS, SUCCESS}
      ensures this.typeId == typeId && Valid()
    {
      this.typeId := typeId;
    }

    ghost predicate Valid() {
      typeId in {PING, LOGOUT, DELETE_ACCOUNT, ACTIVE_USERS, SUCCESS}
    }

    function Value(): (m: Message)
      requires Valid()
    {
      Compose(typeId, [])
    }

    method Serialize(bytes: array<byte>) returns (ok: bool)
      requires Valid() && bytes.Length < TWO_TO_64
      modifies bytes
      ensures ok == Serialized(Value(), old(bytes[..])).ok
      ensures bytes[..] == Serialized(Value(), old(bytes[..])).bytes
    {
      hide Put;
      var writer := new ByteWriter(bytes);
      ghost var fields := Fields(Value());
      assert fields == [[typeId]] && fields[1..] == [];
      ok := WriteField(writer, [typeId], fields);
    }

    method Deserialize(bytes: array<byte>) returns (ok: bool)
      requires Valid() && bytes.Length < TWO_TO_64
      ensures (ok, Value()) == Deserialized(Value(), bytes[..])
    {
      var reader := new ByteReader(bytes);
      var id;
      ok, id := reader.Read(1);
      ok := ok && id == [typeId];
    }
  }

  /** ChangePassword and Failure: one string. */
  class TextMessage {
    const typeId: byte
    var text: Text

    constructor (typeId: byte, text: Text)
      requires typeId in {CHANGE_PASSWORD, FAILURE}
      ensures this.typeId == typeId && this.text == text && Valid()
    {
      this.typeId, this.text := typeId, text;
    }

    ghost predicate Valid() {
      typeId in {CHANGE_PASSWORD, FAILURE}
    }

    function Value(): (m: Message)
      requires Valid()
      reads this
    {
      Compose(typeId, [text])
    }

    method Serialize(bytes: array<byte>) returns (ok: bool)
      requires Valid() && bytes.Length < TWO_TO_64
      modifies bytes
      ensures ok == Serialized(Value(), old(bytes[..])).ok
      ensures bytes[..] == Serialized(Value(), old(bytes[..])).bytes
    {
      hide Word64, Put;
      var writer := new ByteWriter(bytes);
      ghost var fields := [[typeId], Word64(|text|), text];
      OneTextFields(text);
      assert Fields(Value()) == fields;

      ok := WriteField(writer, [typeId], fields);
      if ok {
        ok := WriteField(writer, Word64(|text|), fields[1..]);
      }
      if ok {
        assert fields[1..][1..] == fields[2..] && fields[2..][1..] == [];
        ok := WriteField(writer, text, fields[2..]);
      }
    }

    method Deserialize(bytes: array<byte>) returns (ok: bool)
      requires Valid() && bytes.Length < TWO_TO_64
      modifies this
      ensures (ok, Value()) == Deserialized(old(Value()), bytes[..])
    {
      hide FromLittleEndian;
      var reader := new ByteReader(bytes);
      var id;
      ok, id := reader.Read(1);
      ok := ok && id == [typeId];
      if ok {
        ok, text := ReadText(reader, text);
      }
    }
  }

  /** Login, Register, SendChat and ReceiveChat: two strings. */
  class PairMessage {
    const typeId: byte
    var first: Text
    var second: Text

    constructor (typeId: byte, first: Text, second: Text)
      requires typeId in {LOGIN, REGISTER, SEND_CHAT, RECEIVE_CHAT}
      ensures this.typeId == typeId && this.first == first && this.second == second && Valid()
    {
      this.typeId, this.first, this.second := typeId, first, second;
    }

    ghost predicate Valid() {
      typeId in {LOGIN, REGISTER, SEND_CHAT, RECEIVE_CHAT}
    }

    function Value(): (m: Message)
      requires Valid()
      reads this
    {
      Compose(typeId, [first, second])
    }

    method Serialize(bytes: array<byte>) returns (ok: bool)
      requires Valid() && bytes.Length < TWO_TO_64
      modifies bytes
      ensures ok == Serialized(Value(), old(bytes[..])).ok
      ensures bytes[..] == Serialized(Value(), old(bytes[..])).bytes
    {
      hide Word64, Put;
      var writer := new ByteWriter(bytes);
      ghost var fields := [[typeId], Word64(|first|), first, Word64(|second|), second];
      assert [first, second][1..] == [second];
      OneTextFields(second);
      assert Fields(Value()) == fields;

      assert fields[1..][1..] == fields[2..] && fields[2..][1..] == fields[3..];
      assert fields[3..][1..] == fields[4..] && fields[4..][1..] == [];

      ok := WriteField(writer, [typeId], fields);
      if ok {
        ok := WriteField(writer, Word64(|first|), fields[1..]);
      }
      if ok {
        ok := WriteField(writer, first, fields[2..]);
      }
      if ok {
        ok := WriteField(writer, Word64(|second|), fields[3..]);
      }
      if ok {
        ok := WriteField(writer, second, fields[4..]);
      }
    }

    method Deserialize(bytes: array<byte>) returns (ok: bool)
      requires Valid() && bytes.Length < TWO_TO_64
      modifies this
      ensures (ok, Value()) == Deserialized(old(Value()), bytes[..])
    {
      hide FromLittleEndian;
      var reader := new ByteReader(bytes);
      var id;
      ok, id := reader.Read(1);
      ok := ok && id == [typeId];
      if ok {
        assert [first, second][1..] == [second];
        ok, first := ReadText(reader, first);
        if ok {
          ok, second := ReadText(reader, second);
        }
      }
    }
  }

  class StringListMessage {
    var value: seq<Text>

    constructor (value: seq<Text>)
      ensures this.value == value
    {
      this.value := value;
    }

    method Serialize(bytes: array<byte>) returns (ok: bool)
      requires bytes.Length < TWO_TO_64
      modifies bytes
      ensures ok == Serialized(StringList(value), old(bytes[..])).ok
      ensures bytes[..] == Serialized(StringList(value), old(bytes[..])).bytes
    {
      hide Word64, Put;
      var writer := new ByteWriter(bytes);
      ghost var fields := Fields(StringList(value));
      assert fields[1..][0] == Word64(|value|) && fields[1..][1..] == TextFields(value);

      ok := WriteField(writer, [STRING_LIST], fields);
      if !ok {
        return;
      }
      ok := WriteField(writer, Word64(|value|), fields[1..]);
      if !ok {
        return;
      }

      assert value[0..] == value;
      for i := 0 to |value|
        invariant writer.Valid() && writer.bytes == bytes
        invariant Put(fields, old(bytes[..]), 0) == Put(TextFields(value[i..]), bytes[..], writer.start)
      {
        ghost var rest := TextFields(value[i..]);
        assert value[i..][0] == value[i] && value[i..][1..] == value[i + 1..];
        assert rest[0] == Word64(|value[i]|) && rest[1..][0] == value[i];
        assert rest[1..][1..] == TextFields(value[i + 1..]);
        ok := WriteField(writer, Word64(|value[i]|), rest);
        if ok {
          ok := WriteField(writer, value[i], rest[1..]);
        }
        if !ok {
          return;
        }
      }
      PutNothing(bytes[..], writer.start);
      ok := true;
    }

    method Deserialize(bytes: array<byte>) returns (ok: bool)
      requires bytes.Length < TWO_TO_64
      modifies this
      ensures (ok, StringList(value)) == Deserialized(StringList(old(value)), bytes[..])
    {
      hide FromLittleEndian, Word64, LoadTexts, Resize;
      var reader := new ByteReader(bytes);
      var id, size;
      ok, id := reader.Read(1);
      if !ok || id != [STRING_LIST] {
        return false;
      }
      ok, size := reader.Read(8);
      if !ok {
        return;
      }

      value := ResizeList(value, FromLittleEndian(size));
      ghost var prior := value;
      assert prior[0..] == prior;
      for i := 0 to |value|
        invariant reader.Valid() && reader.bytes == bytes
        invariant |value| == |prior| && value[i..] == prior[i..]
        invariant After(value[..i], LoadTexts(value[i..], bytes[..], reader.start)) == LoadTexts(prior, bytes[..], 9)
      {
        ghost var done, rest := value[..i], value[i..];
        LoadTextsStep(done, rest, bytes[..], reader.start);
        var text;
        ok, text := ReadText(reader, value[i]);
        value := value[i := text];
        assert value[..i + 1] == done + [text] && value[i + 1..] == rest[1..];
        if !ok {
          assert value == done + [text] + rest[1..];
          return;
        }
      }
      assert value[..|value|] == value && value[|value|..] == [] && value + [] == value;
      LoadNothing(bytes[..], reader.start);
      ok := true;
    }
  }

  lemma OneTextFields(t: Text)
    ensures TextFields([t]) == [Word64(|t|), t]
  {
    hide Word64;
    assert [t][1..] == [];
  }

  /** The outcome of the remaining strings, put behind the strings already loaded. */
  ghost function After(done: seq<Text>, r: Loaded): Loaded {
    r.(texts := done + r.texts)
  }

  lemma LoadTextsStep(done: seq<Text>, rest: seq<Text>, b: seq<byte>, pos: nat)
    requires rest != [] && pos <= |b|
    ensures (
      var one := LoadTexts([rest[0]], b, pos);
      After(done, LoadTexts(rest, b, pos))
      == if one.ok then After(done + one.texts, LoadTexts(rest[1..], b, one.cursor))
         else Loaded(false, done + one.texts + rest[1..], one.cursor))
  {
    hide FromLittleEndian, Resize;
    assert [rest[0]][1..] == [];
    if |b| - pos >= 8 {
      var len := FromLittleEndian(b[pos..pos + 8]);
      if |b| - pos - 8 >= len {
        var end := pos + 8 + len;
        var body := [b[pos + 8..end]];
        assert LoadTexts([], b, end) == Loaded(true, [], end);
        assert LoadTexts([rest[0]], b, pos) == Loaded(true, body, end);
        var more := LoadTexts(rest[1..], b, end);
        assert LoadTexts(rest, b, pos) == Loaded(more.ok, body + more.texts, more.cursor);
        assert done + (body + more.texts) == (done + body) + more.texts;
      } else {
        assert LoadTexts([rest[0]], b, pos) == Loaded(false, [Resize(rest[0], len)], pos + 8);
        assert done + ([Resize(rest[0], len)] + rest[1..]) == done + [Resize(rest[0], len)] + rest[1..];
      }
    } else {
      assert rest == [rest[0]] + rest[1..];
      assert done + rest == done + [rest[0]] + rest[1..];
    }
  }

  lemma LoadNothing(b: seq<byte>, pos: nat)
    requires pos <= |b|
    ensures LoadTexts([], b, pos) == Loaded(true, [], pos)
  {
  }

  /** Reads a length, resizes the string `prior` to it, and fills it. */
  method ReadText(reader: ByteReader, prior: Text) returns (ok: bool, text: Text)
    requires reader.Valid()
    modifies reader`start
    ensures reader.Valid()
    ensures Loaded(ok, [text], reader.start) == LoadTexts([prior], reader.bytes[..], old(reader.start))
  {
    hide FromLittleEndian;
    text := prior;
    var size;
    ok, size := reader.Read(8);
    if ok {
      text := Resize(text, FromLittleEndian(size));
      var read;
      ok, read := reader.Read(FromLittleEndian(size));
      if ok {
        text := read;
      }
    }
  }

  /** One write, which carries out the first of the remaining fields. */
  method WriteField(writer: ByteWriter, value: seq<byte>, ghost fields: seq<seq<byte>>) returns (ok: bool)
    requires writer.Valid() && fields != [] && fields[0] == value
    modifies writer`start, writer.bytes
    ensures writer.Valid()
    ensures Put(fields, old(writer.bytes[..]), old(writer.start))
         == if ok then Put(fields[1..], writer.bytes[..], writer.start)
            else Stored(false, writer.bytes[..], writer.start)
    ensures ok && |fields| == 1
        ==> Put(fields, old(writer.bytes[..]), old(writer.start)) == Stored(true, writer.bytes[..], writer.start)
  {
    ok := writer.Write(value);
  }

  lemma PutNothing(b: seq<byte>, start: nat)
    requires start <= |b|
    ensures Put([], b, start) == Stored(true, b, start)
  {
  }
}
