/**
 The byte reader and writer, and what the message serializers make of a buffer and of the object
 they fill: in every case, including a write that no longer fits and a read that fails midway.
 */
module Serialization {
  import opened Basics
  import opened Messages

  // ---------- Specification of serializing ----------

  /** The values a serializer writes one after the other. */
  function Fields(m: Message): seq<seq<byte>> {
    [[m.TypeId()]] + (if m.StringList? then [Word64(|m.value|)] else []) + TextFields(m.Texts())
  }

  function TextFields(ts: seq<Text>): seq<seq<byte>> {
    if ts == [] then [] else [Word64(|ts[0]|), ts[0]] + TextFields(ts[1..])
  }

  function Flatten(fields: seq<seq<byte>>): seq<byte> {
    if fields == [] then [] else fields[0] + Flatten(fields[1..])
  }

  datatype Stored = Stored(ok: bool, bytes: seq<byte>, cursor: nat)

  /** Writes the fields from `start` on and stops at the first that does not fit. */
  function Put(fields: seq<seq<byte>>, b: seq<byte>, start: nat): (r: Stored)
    requires start <= |b|
    ensures |r.bytes| == |b| && start <= r.cursor <= |b|
    decreases |fields|
  {
    if fields == [] then
      Stored(true, b, start)
    else
      var f := fields[0];
      if |f| > |b| - start then
        Stored(false, b, start)
      else
        Put(fields[1..], b[..start] + f + b[start + |f|..], start + |f|)
  }

  function Serialized(m: Message, b: seq<byte>): (r: Stored)
    ensures |r.bytes| == |b| && r.cursor <= |b|
  {
    Put(Fields(m), b, 0)
  }

  lemma {:induction false} PutMeaning(fields: seq<seq<byte>>, b: seq<byte>, start: nat)
    requires start <= |b|
    ensures var r := Put(fields, b, start);
            && (r.ok <==> start + |Flatten(fields)| <= |b|)
            && (r.ok ==> r.cursor == start + |Flatten(fields)|)
            && r.bytes[..start] == b[..start]
            && r.bytes[r.cursor..] == b[r.cursor..]
            && r.bytes[start..r.cursor] <= Flatten(fields)
    decreases |fields|
  {
    if fields != [] && |fields[0]| <= |b| - start {
      var f := fields[0];
      var b', start' := b[..start] + f + b[start + |f|..], start + |f|;
      PutMeaning(fields[1..], b', start');
      var r := Put(fields[1..], b', start');
      assert r.bytes[..start] == r.bytes[..start'][..start];
      assert r.bytes[start..start'] == b'[..start'][start..] == f;
      assert r.bytes[start..r.cursor] == f + r.bytes[start'..r.cursor];
      assert b'[r.cursor..] == b[r.cursor..];
    }
  }

  lemma {:induction false} FlattenTextFields(ts: seq<Text>)
    ensures Flatten(TextFields(ts)) == EncodeTexts(ts)
  {
    hide Word64;
    if ts != [] {
      FlattenTextFields(ts[1..]);
      var fields := TextFields(ts);
      assert fields[1..][0] == ts[0] && fields[1..][1..] == TextFields(ts[1..]);
    }
  }

  lemma FlattenFields(m: Message)
    ensures Flatten(Fields(m)) == Encode(m)
  {
    hide Word64;
    var fields, texts := Fields(m), TextFields(m.Texts());
    FlattenTextFields(m.Texts());
    if m.StringList? {
      assert fields[1..][0] == Word64(|m.value|) && fields[1..][1..] == texts;
      assert Flatten(fields) == fields[0] + (fields[1..][0] + Flatten(texts));
    } else {
      assert fields[1..] == texts;
    }
  }

  /**
   Serializing succeeds exactly when the encoding fits. It then leaves the encoding followed by the
   bytes that were there before; when it fails it has still written only a prefix of the encoding.
   Either way nothing at or behind the final cursor is touched.
   */
  lemma SerializedMeaning(m: Message, b: seq<byte>)
    ensures var r := Serialized(m, b);
            && (r.ok <==> |Encode(m)| <= |b|)
            && (r.ok ==> r.cursor == |Encode(m)| && r.bytes == Encode(m) + b[|Encode(m)|..])
            && r.bytes[..r.cursor] <= Encode(m)
            && r.bytes[r.cursor..] == b[r.cursor..]
  {
    hide Word64, Put, Fields;
    FlattenFields(m);
    PutMeaning(Fields(m), b, 0);
    var r := Serialized(m, b);
    assert r.bytes[0..r.cursor] == r.bytes[..r.cursor];
    if r.ok {
      assert r.bytes == r.bytes[..r.cursor] + r.bytes[r.cursor..];
    }
  }

  // ---------- Specification of deserializing ----------

  /** `std::string::resize`: cuts off, or pads with zero bytes. */
  function Resize(t: Text, n: nat): (r: Text)
    ensures |r| == n
  {
    if n <= |t| then t[..n] else t + seq(n - |t|, _ => 0)
  }

  /** `std::vector<std::string>::resize`: cuts off, or pads with empty strings. */
  function ResizeList(ts: seq<Text>, n: nat): (r: seq<Text>)
    ensures |r| == n
  {
    if n <= |ts| then ts[..n] else ts + seq(n - |ts|, _ => [])
  }

  datatype Loaded = Loaded(ok: bool, texts: seq<Text>, cursor: nat)

  /** Fills the strings `prior` from position `pos` on and stops at the first that fails. */
  function LoadTexts(prior: seq<Text>, b: seq<byte>, pos: nat): (r: Loaded)
    requires pos <= |b|
    ensures |r.texts| == |prior| && pos <= r.cursor <= |b|
    decreases |prior|
  {
    if prior == [] then
      Loaded(true, [], pos)
    else if |b| - pos < 8 then
      Loaded(false, prior, pos)
    else
      var len := FromLittleEndian(b[pos..pos + 8]);
      if |b| - pos - 8 < len then
        Loaded(false, [Resize(prior[0], len)] + prior[1..], pos + 8)
      else
        var rest := LoadTexts(prior[1..], b, pos + 8 + len);
        Loaded(rest.ok, [b[pos + 8..pos + 8 + len]] + rest.texts, rest.cursor)
  }

  /** The outcome of deserializing into an object that holds `prior`, and what the object then holds. */
  function Deserialized(prior: Message, b: seq<byte>): (r: (bool, Message))
    ensures r.1.TypeId() == prior.TypeId()
  {
    if |b| < 1 || b[0] != prior.TypeId() then
      (false, prior)
    else if prior.StringList? then
      if |b| < 9 then
        (false, prior)
      else
        var r := LoadTexts(ResizeList(prior.value, FromLittleEndian(b[1..9])), b, 9);
        (r.ok, StringList(r.texts))
    else
      var r := LoadTexts(prior.Texts(), b, 1);
      (r.ok, Compose(prior.TypeId(), r.texts))
  }

  lemma {:induction false} LoadTextsMeaning(prior: seq<Text>, b: seq<byte>, pos: nat)
    requires pos <= |b|
    ensures var r := LoadTexts(prior, b, pos);
            DecodeTexts(b, pos, |prior|) == if r.ok then Some((r.texts, r.cursor)) else None
    decreases |prior|
  {
    hide FromLittleEndian;
    if prior != [] && |b| - pos >= 8 {
      var len := FromLittleEndian(b[pos..pos + 8]);
      if |b| - pos - 8 >= len {
        LoadTextsMeaning(prior[1..], b, pos + 8 + len);
      }
    }
  }

  /** Whatever the object held before, deserializing succeeds exactly on what decodes, with its value. */
  lemma DeserializedMeaning(prior: Message, b: seq<byte>)
    ensures var (ok, m) := Deserialized(prior, b);
            var d := DecodeAs(prior.TypeId(), b);
            (ok <==> d.Some?) && (ok ==> m == d.value.0)
  {
    hide FromLittleEndian;
    if |b| >= 1 && b[0] == prior.TypeId() {
      if !prior.StringList? {
        LoadTextsMeaning(prior.Texts(), b, 1);
      } else if |b| >= 9 {
        LoadTextsMeaning(ResizeList(prior.value, FromLittleEndian(b[1..9])), b, 9);
      }
    }
  }

  /** If serializing succeeds, the buffer reads back as the same message, into any prior object. */
  lemma SerializeThenDeserialize(m: Message, b: seq<byte>, prior: Message)
    requires |b| < TWO_TO_64
    requires prior.TypeId() == m.TypeId()
    requires Serialized(m, b).ok
    ensures Deserialized(prior, Serialized(m, b).bytes) == (true, m)
  {
    hide *;
    SerializedMeaning(m, b);
    EncodedSize(m);
    RoundTrip(m, b[|Encode(m)|..], m.TypeId());
    DeserializedMeaning(prior, Serialized(m, b).bytes);
  }

  /** If deserializing succeeds, serializing the result over a buffer of that size restores what was read. */
  lemma DeserializeThenSerialize(prior: Message, b: seq<byte>, target: seq<byte>)
    requires Deserialized(prior, b).0 && |target| == |b|
    ensures DecodeAs(prior.TypeId(), b).Some?
    ensures var m := Deserialized(prior, b).1;
            var k := DecodeAs(prior.TypeId(), b).value.1;
            var r := Serialized(m, target);
            r.ok && r.cursor == k && r.bytes == b[..k] + target[k..]
  {
    hide *;
    DeserializedMeaning(prior, b);
    var (m, k) := DecodeAs(prior.TypeId(), b).value;
    DecodeIffEncoded(prior.TypeId(), b, m, k);
    SerializedMeaning(m, target);
  }

  // ---------- The reader and the writer ----------

  /** Subtraction of `uint64_t` values, which wraps around below zero. */
  function Minus64(a: nat, b: nat): nat {
    (a - b) % TWO_TO_64
  }

  /** Addition of `uint64_t` values, which wraps around at the top. */
  function Plus64(a: nat, b: nat): nat {
    (a + b) % TWO_TO_64
  }

  class ByteReader {
    const bytes: array<byte>
    var start: nat

    ghost predicate Valid()
      reads this
    {
      start <= bytes.Length < TWO_TO_64
    }

    constructor (bytes: array<byte>)
      requires bytes.Length < TWO_TO_64
      ensures Valid() && this.bytes == bytes && start == 0
    {
      this.bytes := bytes;
      start := 0;
    }

    /** On success `value` is what is copied out; on failure the destination keeps its content. */
    method Peek(size: nat) returns (success: bool, value: seq<byte>)
      requires Valid()
      ensures success <==> start + size <= bytes.Length
      ensures value == if success then bytes[start..start + size] else []
    {
      success := Minus64(bytes.Length, start) >= size;
      value := [];
      if success {
        value := bytes[start..start + size];
      }
    }

    method Read(size: nat) returns (success: bool, value: seq<byte>)
      requires Valid()
      modifies this`start
      ensures Valid()
      ensures success <==> old(start) + size <= bytes.Length
      ensures value == if success then bytes[old(start)..old(start) + size] else []
      ensures start == if success then old(start) + size else old(start)
    {
      success, value := Peek(size);
      if success {
        start := Plus64(start, size);
      }
    }
  }

  class ByteWriter {
    const bytes: array<byte>
    var start: nat

    ghost predicate Valid()
      reads this
    {
      start <= bytes.Length < TWO_TO_64
    }

    constructor (bytes: array<byte>)
      requires bytes.Length < TWO_TO_64
      ensures Valid() && this.bytes == bytes && start == 0
    {
      this.bytes := bytes;
      start := 0;
    }

    /** The cursor never passes the end, so the unsigned remainder never wraps. */
    method Write(value: seq<byte>) returns (success: bool)
      requires Valid()
      modifies this`start, bytes
      ensures Valid()
      ensures success <==> old(start) + |value| <= bytes.Length
      ensures start == if success then old(start) + |value| else old(start)
      ensures bytes[..] ==
              var was := old(bytes[..]);
              if success then was[..old(start)] + value + was[old(start) + |value|..] else was
    {
      success := Minus64(bytes.Length, start) >= |value|;
      if success {
        forall i | 0 <= i < |value| {
          bytes[start + i] := value[i];
        }
        start := Plus64(start, |value|);
      }
    }
  }
}
