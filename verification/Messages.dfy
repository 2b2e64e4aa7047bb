/**
 The twelve messages, and the meaning of their wire format: a pure encoding and a pure decoding,
 with the proof that each is exactly the other's inverse.
 */
module Messages {
  import opened Basics

  datatype Message =
    | Ping
    | Login(username: Text, password: Text)
    | Register(username: Text, password: Text)
    | Logout
    | DeleteAccount
    | ChangePassword(newPassword: Text)
    | ActiveUsers
    | SendChat(to: Text, content: Text)
    | ReceiveChat(from: Text, content: Text)
    | Success
    | Failure(what: Text)
    | StringList(value: seq<Text>)
  {
    function TypeId(): (id: byte)
      ensures IsTypeId(id)
    {
      match this
      case Ping => PING
      case Login(_, _) => LOGIN
      case Register(_, _) => REGISTER
      case Logout => LOGOUT
      case DeleteAccount => DELETE_ACCOUNT
      case ChangePassword(_) => CHANGE_PASSWORD
      case ActiveUsers => ACTIVE_USERS
      case SendChat(_, _) => SEND_CHAT
      case ReceiveChat(_, _) => RECEIVE_CHAT
      case Success => SUCCESS
      case Failure(_) => FAILURE
      case StringList(_) => STRING_LIST
    }

    /** The string fields, in the order in which they are written. */
    function Texts(): seq<Text> {
      match this
      case Login(u, p) => [u, p]
      case Register(u, p) => [u, p]
      case ChangePassword(p) => [p]
      case SendChat(t, c) => [t, c]
      case ReceiveChat(f, c) => [f, c]
      case Failure(w) => [w]
      case StringList(v) => v
      case _ => []
    }
  }

  const PING: byte := 1
  const LOGIN: byte := 2
  const REGISTER: byte := 3
  const LOGOUT: byte := 4
  const DELETE_ACCOUNT: byte := 5
  const CHANGE_PASSWORD: byte := 6
  const ACTIVE_USERS: byte := 7
  const SEND_CHAT: byte := 8
  const RECEIVE_CHAT: byte := 9
  const SUCCESS: byte := 10
  const FAILURE: byte := 11
  const STRING_LIST: byte := 12

  predicate IsTypeId(id: byte) {
    PING <= id <= STRING_LIST
  }

  /** How many string fields a message other than a string list has. */
  function Arity(id: byte): nat {
    if id in {LOGIN, REGISTER, SEND_CHAT, RECEIVE_CHAT} then 2
    else if id in {CHANGE_PASSWORD, FAILURE} then 1
    else 0
  }

  predicate Shaped(id: byte, texts: seq<Text>) {
    IsTypeId(id) && (id != STRING_LIST ==> |texts| == Arity(id))
  }

  /** The message of type `id` with the given string fields. */
  function Compose(id: byte, texts: seq<Text>): (m: Message)
    requires Shaped(id, texts)
    ensures m.TypeId() == id && m.Texts() == texts
  {
    if id == PING then Ping
    else if id == LOGIN then Login(texts[0], texts[1])
    else if id == REGISTER then Register(texts[0], texts[1])
    else if id == LOGOUT then Logout
    else if id == DELETE_ACCOUNT then DeleteAccount
    else if id == CHANGE_PASSWORD then ChangePassword(texts[0])
    else if id == ACTIVE_USERS then ActiveUsers
    else if id == SEND_CHAT then SendChat(texts[0], texts[1])
    else if id == RECEIVE_CHAT then ReceiveChat(texts[0], texts[1])
    else if id == SUCCESS then Success
    else if id == FAILURE then Failure(texts[0])
    else StringList(texts)
  }

  // ---------- Encoding ----------

  function EncodeTexts(ts: seq<Text>): seq<byte> {
    if ts == [] then [] else Word64(|ts[0]|) + ts[0] + EncodeTexts(ts[1..])
  }

  /** The bytes before the string fields: the type id and, for a list, the number of strings. */
  function Header(m: Message): (h: seq<byte>)
    ensures |h| == if m.StringList? then 9 else 1
  {
    [m.TypeId()] + if m.StringList? then Word64(|m.value|) else []
  }

  function Encode(m: Message): seq<byte> {
    Header(m) + EncodeTexts(m.Texts())
  }

  lemma EncodeHead(m: Message)
    ensures |Encode(m)| >= 1 && Encode(m)[0] == m.TypeId()
  {
  }

  /** Every length is representable in the `uint64_t` that carries it, as it is in any real memory. */
  predicate Sized(m: Message) {
    |m.Texts()| < TWO_TO_64 && SizedTexts(m.Texts())
  }

  predicate SizedTexts(ts: seq<Text>) {
    forall i :: 0 <= i < |ts| ==> |ts[i]| < TWO_TO_64
  }

  function TotalSize(ts: seq<Text>): nat {
    if ts == [] then 0 else 8 + |ts[0]| + TotalSize(ts[1..])
  }

  lemma {:induction false} EncodeTextsSize(ts: seq<Text>)
    ensures |EncodeTexts(ts)| == TotalSize(ts)
    ensures 8 * |ts| <= TotalSize(ts)
    ensures forall i :: 0 <= i < |ts| ==> |ts[i]| <= TotalSize(ts)
  {
    if ts != [] {
      EncodeTextsSize(ts[1..]);
      assert forall i :: 1 <= i < |ts| ==> ts[i] == ts[1..][i - 1];
    }
  }

  /** The size of an encoding in terms of the fields alone. */
  lemma EncodedSize(m: Message)
    ensures m.Texts() == [] && !m.StringList? ==> |Encode(m)| == 1
    ensures m.ChangePassword? ==> |Encode(m)| == 9 + |m.newPassword|
    ensures m.Failure? ==> |Encode(m)| == 9 + |m.what|
    ensures m.Login? || m.Register? ==> |Encode(m)| == 17 + |m.username| + |m.password|
    ensures m.SendChat? ==> |Encode(m)| == 17 + |m.to| + |m.content|
    ensures m.ReceiveChat? ==> |Encode(m)| == 17 + |m.from| + |m.content|
    ensures m.StringList? ==> |Encode(m)| == 9 + TotalSize(m.value)
    ensures |Encode(m)| < TWO_TO_64 ==> Sized(m)
  {
    var ts := m.Texts();
    EncodeTextsSize(ts);
    if |ts| > 0 {
      assert TotalSize(ts) == 8 + |ts[0]| + TotalSize(ts[1..]);
    }
    if |ts| == 2 {
      assert TotalSize(ts[1..]) == 8 + |ts[1]| + TotalSize(ts[1..][1..]);
    }
  }

  // ---------- The bytes of each message ----------

  /** Byte by byte: a type id, and each string in the order of the fields behind its length. */
  lemma EncodedBytes(m: Message)
    ensures m.Ping? ==> Encode(m) == [1]
    ensures m.Login? ==> Encode(m) == [2] + Word64(|m.username|) + m.username + Word64(|m.password|) + m.password
    ensures m.Register? ==> Encode(m) == [3] + Word64(|m.username|) + m.username + Word64(|m.password|) + m.password
    ensures m.Logout? ==> Encode(m) == [4]
    ensures m.DeleteAccount? ==> Encode(m) == [5]
    ensures m.ChangePassword? ==> Encode(m) == [6] + Word64(|m.newPassword|) + m.newPassword
    ensures m.ActiveUsers? ==> Encode(m) == [7]
    ensures m.SendChat? ==> Encode(m) == [8] + Word64(|m.to|) + m.to + Word64(|m.content|) + m.content
    ensures m.ReceiveChat? ==> Encode(m) == [9] + Word64(|m.from|) + m.from + Word64(|m.content|) + m.content
    ensures m.Success? ==> Encode(m) == [10]
    ensures m.Failure? ==> Encode(m) == [11] + Word64(|m.what|) + m.what
    ensures m.StringList? ==> [12] + Word64(|m.value|) <= Encode(m)
  {
    hide Word64, EncodeTexts;
    match m
    case Login(u, p) => PairBytes(u, p);
    case Register(u, p) => PairBytes(u, p);
    case SendChat(t, c) => PairBytes(t, c);
    case ReceiveChat(f, c) => PairBytes(f, c);
    case ChangePassword(p) => OneBytes(p);
    case Failure(w) => OneBytes(w);
    case StringList(_) =>
    case _ => NoBytes();
  }

  lemma NoBytes()
    ensures EncodeTexts([]) == []
  {
  }

  lemma OneBytes(t: Text)
    ensures EncodeTexts([t]) == Word64(|t|) + t
  {
    hide Word64;
    assert EncodeTexts([t][1..]) == [];
  }

  lemma PairBytes(t: Text, t': Text)
    ensures EncodeTexts([t, t']) == Word64(|t|) + t + Word64(|t'|) + t'
  {
    hide Word64;
    OneBytes(t');
    assert [t, t'][1..] == [t'];
  }

  lemma {:induction false} EncodeTextsAppend(ts: seq<Text>, more: seq<Text>)
    ensures EncodeTexts(ts + more) == EncodeTexts(ts) + EncodeTexts(more)
  {
    hide Word64;
    if ts == [] {
      assert ts + more == more;
    } else {
      EncodeTextsAppend(ts[1..], more);
      assert (ts + more)[1..] == ts[1..] + more;
    }
  }

  /** The i-th string of a list starts, with its length, behind the nine bytes of the head and the strings before it. */
  lemma StringListBytes(v: seq<Text>, i: nat)
    requires i < |v|
    ensures var at := 9 + TotalSize(v[..i]);
            && at + 8 + |v[i]| <= |Encode(StringList(v))|
            && Encode(StringList(v))[at..at + 8] == Word64(|v[i]|)
            && Encode(StringList(v))[at + 8..at + 8 + |v[i]|] == v[i]
  {
    hide Word64;
    var rest := v[i..];
    assert v == v[..i] + rest;
    EncodeTextsAppend(v[..i], rest);
    EncodeTextsSize(v[..i]);
    assert EncodeTexts(rest) == Word64(|v[i]|) + v[i] + EncodeTexts(rest[1..]);
    assert Encode(StringList(v)) == Header(StringList(v)) + EncodeTexts(v[..i]) + EncodeTexts(rest);
    hide Encode, EncodeTexts, Header, TotalSize;
  }

  // ---------- Decoding ----------

  /** Reads `n` length-prefixed strings from position `pos`; also yields the position behind them. */
  function DecodeTexts(b: seq<byte>, pos: nat, n: nat): (r: Option<(seq<Text>, nat)>)
    requires pos <= |b|
    ensures r.Some? ==> |r.value.0| == n && pos <= r.value.1 <= |b|
    decreases n
  {
    if n == 0 then
      Some(([], pos))
    else if |b| - pos < 8 then
      None
    else
      var len := FromLittleEndian(b[pos..pos + 8]);
      if |b| - pos - 8 < len then
        None
      else
        match DecodeTexts(b, pos + 8 + len, n - 1)
        case None => None
        case Some((ts, end)) => Some(([b[pos + 8..pos + 8 + len]] + ts, end))
  }

  /** What the deserializer of message type `id` makes of `b`: the message and how far it read. */
  function DecodeAs(id: byte, b: seq<byte>): (r: Option<(Message, nat)>)
    requires IsTypeId(id)
    ensures r.Some? ==> r.value.0.TypeId() == id
  {
    if |b| < 1 || b[0] != id then
      None
    else if id == STRING_LIST && |b| < 9 then
      None
    else
      var (pos, n) := if id == STRING_LIST then (9, FromLittleEndian(b[1..9])) else (1, Arity(id));
      match DecodeTexts(b, pos, n)
      case None => None
      case Some((ts, end)) => Some((Compose(id, ts), end))
  }

  // ---------- The two are inverse ----------

  lemma {:induction false} DecodeTextsSound(b: seq<byte>, pos: nat, n: nat)
    requires pos <= |b|
    requires DecodeTexts(b, pos, n).Some?
    ensures var (ts, end) := DecodeTexts(b, pos, n).value;
            b[pos..end] == EncodeTexts(ts) && SizedTexts(ts)
    decreases n
  {
    hide Word64, FromLittleEndian;
    if n > 0 {
      var word := b[pos..pos + 8];
      var len := FromLittleEndian(word);
      var next := pos + 8 + len;
      var body := b[pos + 8..next];
      var (rest, end) := DecodeTexts(b, next, n - 1).value;
      Word64RoundTrip(0, word);
      DecodeTextsSound(b, next, n - 1);
      assert DecodeTexts(b, pos, n) == Some(([body] + rest, end));
      hide DecodeTexts;
      assert ([body] + rest)[1..] == rest;
      assert EncodeTexts([body] + rest) == word + body + EncodeTexts(rest);
      assert b[pos..end] == word + body + b[next..end];
    }
  }

  lemma SliceOfSlice(b: seq<byte>, pos: nat, code: seq<byte>, i: nat, j: nat)
    requires pos + |code| <= |b| && b[pos..pos + |code|] == code && i <= j <= |code|
    ensures b[pos + i..pos + j] == code[i..j]
  {
    forall k | i <= k < j
      ensures b[pos + k] == code[k]
    {
      assert b[pos..pos + |code|][k] == b[pos + k];
    }
  }

  lemma {:induction false} DecodeTextsComplete(b: seq<byte>, pos: nat, ts: seq<Text>)
    requires pos + |EncodeTexts(ts)| <= |b|
    requires b[pos..pos + |EncodeTexts(ts)|] == EncodeTexts(ts)
    requires SizedTexts(ts)
    ensures DecodeTexts(b, pos, |ts|) == Some((ts, pos + |EncodeTexts(ts)|))
    decreases |ts|
  {
    hide Word64, FromLittleEndian;
    if ts != [] {
      var len, code := |ts[0]|, EncodeTexts(ts);
      var rest := EncodeTexts(ts[1..]);
      assert code == Word64(len) + ts[0] + rest;
      assert code[..8] == Word64(len) && code[8..8 + len] == ts[0] && code[8 + len..] == rest;
      SliceOfSlice(b, pos, code, 0, 8);
      SliceOfSlice(b, pos, code, 8, 8 + len);
      SliceOfSlice(b, pos, code, 8 + len, |code|);
      Word64RoundTrip(len, Word64(len));
      DecodeTextsComplete(b, pos + 8 + len, ts[1..]);
      assert ts == [ts[0]] + ts[1..];
    }
  }

  /**
   The wire format theorem. Deserializing bytes as type `id` yields `m` after reading `k` bytes if
   and only if `m` has that type and its encoding is exactly the first `k` bytes. From left to right
   this says that whatever is accepted re-encodes to the bytes consumed; from right to left that
   every encoding is read back, whatever follows it in the buffer.
   */
  lemma DecodeIffEncoded(id: byte, b: seq<byte>, m: Message, k: nat)
    requires IsTypeId(id)
    ensures DecodeAs(id, b) == Some((m, k))
       <==> m.TypeId() == id && Sized(m) && k == |Encode(m)| && Encode(m) <= b
  {
    if DecodeAs(id, b) == Some((m, k)) {
      AcceptedIsEncoded(id, b, m, k);
    }
    if m.TypeId() == id && Sized(m) && k == |Encode(m)| && Encode(m) <= b {
      EncodedIsAccepted(b, m);
    }
  }

  lemma AcceptedIsEncoded(id: byte, b: seq<byte>, m: Message, k: nat)
    requires IsTypeId(id) && DecodeAs(id, b) == Some((m, k))
    ensures m.TypeId() == id && Sized(m) && k == |Encode(m)| && Encode(m) <= b
  {
    hide Word64, FromLittleEndian, DecodeTexts, EncodeTexts;
    var pos := if id == STRING_LIST then 9 else 1;
    if id == STRING_LIST {
      Word64RoundTrip(0, b[1..9]);
      DecodeTextsSound(b, pos, FromLittleEndian(b[1..9]));
      assert b[..pos] == [b[0]] + b[1..9];
    } else {
      DecodeTextsSound(b, pos, Arity(id));
      assert b[..pos] == [b[0]];
    }
    assert b[..pos] == Header(m);
    assert b[..k] == b[..pos] + b[pos..k];
  }

  lemma EncodedIsAccepted(b: seq<byte>, m: Message)
    requires Sized(m) && Encode(m) <= b
    ensures DecodeAs(m.TypeId(), b) == Some((m, |Encode(m)|))
  {
    hide Word64, FromLittleEndian;
    var h, ts := Header(m), m.Texts();
    var e := Encode(m);
    assert e == b[..|e|];
    assert b[..|h|] == e[..|h|] == h;
    assert b[|h|..|h| + |EncodeTexts(ts)|] == e[|h|..] == EncodeTexts(ts);
    assert b[0] == h[0] == m.TypeId();
    if m.StringList? {
      assert b[1..9] == h[1..9] == Word64(|m.value|);
      Word64RoundTrip(|m.value|, b[1..9]);
    } else {
      assert |ts| == Arity(m.TypeId());
    }
    DecodeTextsComplete(b, |h|, ts);
  }

  /** Whatever stale bytes follow it, an encoding is read back by its own type and by no other. */
  lemma RoundTrip(m: Message, stale: seq<byte>, id: byte)
    requires Sized(m) && IsTypeId(id)
    ensures DecodeAs(id, Encode(m) + stale)
         == if id == m.TypeId() then Some((m, |Encode(m)|)) else None
  {
    var b := Encode(m) + stale;
    EncodedIsAccepted(b, m);
    assert b[0] == m.TypeId();
  }

  /** The format is unambiguous: no encoding is a prefix, proper or not, of a different message's. */
  lemma PrefixFree(m: Message, m': Message)
    requires Sized(m) && Sized(m')
    requires Encode(m) <= Encode(m')
    ensures m == m'
  {
    EncodedIsAccepted(Encode(m'), m);
    EncodedIsAccepted(Encode(m'), m');
    assert Encode(m)[0] == m.TypeId() && Encode(m')[0] == m'.TypeId();
  }

  /** What is decoded depends on the encoded prefix alone. */
  lemma DecodeDependsOnPrefix(id: byte, b: seq<byte>, b': seq<byte>)
    requires IsTypeId(id) && DecodeAs(id, b).Some?
    requires b[..DecodeAs(id, b).value.1] <= b'
    ensures DecodeAs(id, b') == DecodeAs(id, b)
  {
    var (m, k) := DecodeAs(id, b).value;
    AcceptedIsEncoded(id, b, m, k);
    EncodedIsAccepted(b', m);
  }
}
