/**
 The two passes of message_to_buffer and the parser of buffer_to_message as the program runs them: a
 buffer of bytes, and a cursor that moves through it.
 */
module MessageBuffer {
  import opened CStrings
  import opened Message

  // ---------------------------------------------------------------- writing

  /** The copying of n bytes to the cursor. */
  method PutBytes(buf: array<Byte>, ptr: nat, bytes: seq<Byte>) returns (end: nat)
    requires ptr + |bytes| <= buf.Length
    modifies buf
    ensures end == ptr + |bytes|
    ensures buf[..end] == old(buf[..ptr]) + bytes
  {
    for i := 0 to |bytes|
      invariant buf[..ptr] == old(buf[..ptr])
      invariant buf[ptr..ptr + i] == bytes[..i]
    {
      buf[ptr + i] := bytes[i];
    }
    end := ptr + |bytes|;
  }

  /** The length of a key as a short, then its bytes. */
  method PutKeyField(buf: array<Byte>, ptr: nat, key: CString) returns (end: nat)
    requires ptr + |KeyField(key)| <= buf.Length
    modifies buf
    ensures end == ptr + |KeyField(key)|
    ensures buf[..end] == old(buf[..ptr]) + KeyField(key)
  {
    end := PutBytes(buf, ptr, U16(|key|));
    end := PutBytes(buf, end, Bytes(key));
  }

  /** The size of a block of data as an int, then its bytes. */
  method PutBlock(buf: array<Byte>, ptr: nat, data: seq<Byte>) returns (end: nat)
    requires ptr + 4 + |data| <= buf.Length
    modifies buf
    ensures end == ptr + 4 + |data|
    ensures buf[..end] == old(buf[..ptr]) + (U32(|data|) + data)
  {
    end := PutBytes(buf, ptr, U32(|data|));
    end := PutBytes(buf, end, data);
  }

  /** The loop of the writing pass over the keys. */
  method PutKeys(buf: array<Byte>, start: nat, keys: seq<CString>) returns (ptr: nat)
    requires start + |KeyFields(keys)| <= buf.Length
    modifies buf
    ensures ptr == start + |KeyFields(keys)|
    ensures buf[..ptr] == old(buf[..start]) + KeyFields(keys)
  {
    ptr := start;
    KeyFieldsPrefix(keys, 0);
    for i := 0 to |keys|
      invariant ptr == start + |KeyFields(keys[..i])| && ptr <= buf.Length
      invariant buf[..ptr] == old(buf[..start]) + KeyFields(keys[..i])
    {
      KeyFieldsSnoc(keys, i);
      KeyFieldsPrefix(keys, i + 1);
      ptr := PutKeyField(buf, ptr, keys[i]);
    }
    assert keys[..|keys|] == keys;
  }

  lemma {:induction false} KeyFieldsConcat(a: seq<CString>, b: seq<CString>)
    ensures KeyFields(a + b) == KeyFields(a) + KeyFields(b)
    decreases |a|
  {
    if a == [] {
      assert a + b == b;
    } else {
      KeyFieldsConcat(a[1..], b);
      assert (a + b)[1..] == a[1..] + b && (a + b)[0] == a[0];
      assert KeyFields(a + b) == KeyField(a[0]) + KeyFields((a + b)[1..]);
      assert KeyField(a[0]) + (KeyFields(a[1..]) + KeyFields(b)) == (KeyField(a[0]) + KeyFields(a[1..])) + KeyFields(b);
    }
  }

  lemma KeyFieldsSnoc(keys: seq<CString>, i: nat)
    requires i < |keys|
    ensures KeyFields(keys[..i + 1]) == KeyFields(keys[..i]) + KeyField(keys[i])
  {
    KeyFieldsConcat(keys[..i], [keys[i]]);
    assert keys[..i + 1] == keys[..i] + [keys[i]];
    assert KeyFields([keys[i]]) == KeyField(keys[i]);
  }

  lemma KeyFieldsPrefix(keys: seq<CString>, i: nat)
    requires i <= |keys|
    ensures |KeyFields(keys[..i])| <= |KeyFields(keys)|
  {
    KeyFieldsConcat(keys[..i], keys[i..]);
    assert keys == keys[..i] + keys[i..];
  }

  /** The sizing pass: its own switch and its own loop over the keys. */
  method BufferSize(m: Message) returns (size: nat)
    ensures size == |Serialize(m)|
  {
    size := 2 + 2 + 2;
    match m.content
    case Value(data) =>
      size := size + 4 + |data|;
    case Entry(key, data) =>
      size := size + 2 + 4;
      size := size + |key|;
      size := size + |data|;
    case Keys(keys) =>
      size := size + 4;
      for i := 0 to |keys|
        invariant size == 10 + |KeyFields(keys[..i])|
      {
        KeyFieldsSnoc(keys, i);
        size := size + 2 + |keys[i]|;
      }
      assert keys[..|keys|] == keys;
    case KeyOnly(key) =>
      size := size + 2 + |key|;
    case Result(_) =>
      size := size + 4;
    case NoData =>
    case Other(_) =>
  }

  /** message_to_buffer: the buffer of the size computed first is filled exactly, to its last byte. */
  method MessageToBuffer(m: Message) returns (buf: array<Byte>, size: nat)
    ensures fresh(buf)
    ensures size == buf.Length && buf[..] == Serialize(m)
  {
    size := BufferSize(m);
    buf := new Byte[size];
    var ptr := PutHeader(buf, m);
    ptr := PutPayload(buf, ptr, m.content);
    assert buf[..ptr] == buf[..];
  }

  method PutHeader(buf: array<Byte>, m: Message) returns (ptr: nat)
    requires buf.Length >= 6
    modifies buf
    ensures ptr == 6 && buf[..6] == Header(m)
  {
    ptr := PutBytes(buf, 0, U16(m.opcode));
    ptr := PutBytes(buf, ptr, U16(CType(m.content)));
    ptr := PutBytes(buf, ptr, U16(m.tableNum));
  }

  method PutKeyList(buf: array<Byte>, start: nat, keys: seq<CString>) returns (ptr: nat)
    requires start + 4 + |KeyFields(keys)| <= buf.Length
    modifies buf
    ensures ptr == start + 4 + |KeyFields(keys)|
    ensures buf[..ptr] == old(buf[..start]) + (U32(|keys|) + KeyFields(keys))
  {
    ptr := PutBytes(buf, start, U32(|keys|));
    ptr := PutKeys(buf, ptr, keys);
  }

  method PutEntry(buf: array<Byte>, start: nat, key: CString, data: seq<Byte>) returns (ptr: nat)
    requires start + |KeyField(key)| + 4 + |data| <= buf.Length
    modifies buf
    ensures ptr == start + |KeyField(key)| + 4 + |data|
    ensures buf[..ptr] == old(buf[..start]) + (KeyField(key) + (U32(|data|) + data))
  {
    ptr := PutKeyField(buf, start, key);
    ptr := PutBlock(buf, ptr, data);
  }

  /** The switch of the writing pass over the content type. */
  method PutPayload(buf: array<Byte>, start: nat, c: Content) returns (ptr: nat)
    requires start + |Payload(c)| <= buf.Length
    modifies buf
    ensures ptr == start + |Payload(c)|
    ensures buf[..ptr] == old(buf[..start]) + Payload(c)
  {
    match c
    case Result(result) =>
      ptr := PutBytes(buf, start, U32(result));
    case KeyOnly(key) =>
      ptr := PutKeyField(buf, start, key);
    case Keys(keys) =>
      ptr := PutKeyList(buf, start, keys);
    case Value(data) =>
      ptr := PutBlock(buf, start, data);
    case Entry(key, data) =>
      ptr := PutEntry(buf, start, key, data);
    case NoData => ptr := start;
    case Other(_) => ptr := start;
  }

  // ---------------------------------------------------------------- reading

  /** The bytes from the cursor to the end of the buffer. */
  ghost function From(buf: array<Byte>, ptr: nat): seq<Byte>
    requires ptr <= buf.Length
    reads buf
  {
    buf[ptr..]
  }

  /** What the parser makes of the bytes at the cursor: a value and the place behind it, NULL, or a fault. */
  datatype Reading<T> = Read(value: T, end: nat) | Null | Wild

  /** The reading is the parsed value, with the cursor moved over the bytes that the parse used. */
  ghost predicate Matches<T(!new)>(r: Reading<T>, p: Parsed<T>, buf: array<Byte>, ptr: nat) {
    match p
    case Got(value, _, used) => r == Read(value, ptr + used) && ptr + used <= buf.Length
    case Refused => r == Null
    case Faults => r == Wild
  }

  method GetShort(buf: array<Byte>, ptr: nat) returns (n: nat)
    requires ptr + 2 <= buf.Length
    ensures n == Read16(From(buf, ptr)) && n < 0x1_0000
  {
    var high: int := buf[ptr];
    n := high * 0x100 + buf[ptr + 1];
  }

  method GetInt(buf: array<Byte>, ptr: nat) returns (n: nat)
    requires ptr + 4 <= buf.Length
    ensures n == Read32(From(buf, ptr)) && n < 0x1_0000_0000
  {
    var high := GetShort(buf, ptr);
    var low := GetShort(buf, ptr + 2);
    assert From(buf, ptr)[2..] == From(buf, ptr + 2);
    n := high * 0x1_0000 + low;
  }

  /** One key of a counted list or of an entry, behind its signed length. */
  method GetKey(buf: array<Byte>, ptr: nat) returns (r: Reading<CString>)
    requires ptr <= buf.Length
    ensures Matches(r, ParseShortKey(From(buf, ptr)), buf, ptr)
  {
    if ptr + 2 > buf.Length {
      return Wild;
    }
    var n := GetShort(buf, ptr);
    var length := ToShort(n);
    if length < -1 {
      return Null;
    }
    if length == -1 || ptr + 2 + length > buf.Length {
      return Wild;
    }
    assert From(buf, ptr)[2..2 + length] == buf[ptr + 2..ptr + 2 + length];
    r := Read(CStr(buf[ptr + 2..ptr + 2 + length]), ptr + 2 + length);
  }

  /** A block of data behind its size. */
  method GetData(buf: array<Byte>, ptr: nat) returns (r: Reading<seq<Byte>>)
    requires ptr <= buf.Length
    ensures Matches(r, ParseData(From(buf, ptr)), buf, ptr)
  {
    if ptr + 4 > buf.Length {
      return Wild;
    }
    var n := GetInt(buf, ptr);
    var size := ToInt(n);
    if size < 0 {
      return Null;
    }
    if ptr + 4 + size > buf.Length {
      return Wild;
    }
    assert From(buf, ptr)[4..4 + size] == buf[ptr + 4..ptr + 4 + size];
    r := Read(buf[ptr + 4..ptr + 4 + size], ptr + 4 + size);
  }

  /** What the keys read so far and the parse of the rest say about the parse of the whole list. */
  ghost predicate Extends(whole: Parsed<seq<CString>>, soFar: seq<CString>, read: nat, b: seq<Byte>, n: nat) {
    match ParseKeys(b, n)
    case Got(keys, _, used) => whole.Got? && whole.value == soFar + keys && whole.used == read + used
    case Refused => whole.Refused?
    case Faults => whole.Faults?
  }

  /** One turn of the loop over the keys. */
  lemma ExtendsByOne(whole: Parsed<seq<CString>>, soFar: seq<CString>, read: nat, b: seq<Byte>, n: nat)
    requires n > 0 && Extends(whole, soFar, read, b, n)
    ensures match ParseShortKey(b)
            case Got(key, _, used) =>
              used <= |b| ==> Extends(whole, soFar + [key], read + used, b[used..], n - 1)
            case Refused => whole.Refused?
            case Faults => whole.Faults?
  {
  }

  lemma ExtendsNothing(b: seq<Byte>, n: nat)
    ensures Extends(ParseKeys(b, n), [], 0, b, n)
  {
  }

  lemma ExtendedFully(whole: Parsed<seq<CString>>, soFar: seq<CString>, read: nat, b: seq<Byte>)
    requires Extends(whole, soFar, read, b, 0)
    ensures whole.Got? && whole.value == soFar && whole.used == read
  {
  }

  /** The body of the loop over the keys: one key, and the cursor behind it. */
  method GetNextKey(buf: array<Byte>, start: nat, ptr: nat, ghost whole: Parsed<seq<CString>>,
                    ghost soFar: seq<CString>, ghost n: nat)
    returns (next: Reading<CString>)
    requires start <= ptr <= buf.Length && n > 0 && Extends(whole, soFar, ptr - start, From(buf, ptr), n)
    ensures match next
            case Read(key, end) =>
              && start <= end <= buf.Length
              && Extends(whole, soFar + [key], end - start, From(buf, end), n - 1)
            case Null => whole.Refused?
            case Wild => whole.Faults?
  {
    ExtendsByOne(whole, soFar, ptr - start, From(buf, ptr), n);
    next := GetKey(buf, ptr);
    if next.Read? {
      assert From(buf, ptr)[next.end - ptr..] == From(buf, next.end);
    }
  }

  /** The parser's loop over the keys of a list. */
  method GetKeys(buf: array<Byte>, start: nat, n: nat) returns (r: Reading<seq<CString>>)
    requires start <= buf.Length
    ensures Matches(r, ParseKeys(From(buf, start), n), buf, start)
  {
    var ptr: nat := start;
    var soFar: seq<CString> := [];
    ghost var whole := ParseKeys(From(buf, start), n);
    ExtendsNothing(From(buf, start), n);
    for i := 0 to n
      invariant start <= ptr <= buf.Length
      invariant Extends(whole, soFar, ptr - start, From(buf, ptr), n - i)
    {
      var next := GetNextKey(buf, start, ptr, whole, soFar, n - i);
      match next
      case Null => return Null;
      case Wild => return Wild;
      case Read(key, end) => ptr, soFar := end, soFar + [key];
    }
    ExtendedFully(whole, soFar, ptr - start, From(buf, ptr));
    r := Read(soFar, ptr);
  }

  /** buffer_to_message, on a buffer of any length and contents. */
  method BufferToMessage(buf: array<Byte>) returns (r: Reading<Message>)
    ensures Matches(r, Parse(buf[..]), buf, 0)
  {
    if buf.Length < 6 {
      return Wild;
    }
    assert From(buf, 0) == buf[..] && From(buf, 2) == buf[..][2..];
    assert From(buf, 4) == buf[..][4..] && From(buf, 6) == buf[..][6..];
    var n := GetShort(buf, 0);
    var opcode := ToShort(n);
    n := GetShort(buf, 2);
    var code := ToShort(n);
    n := GetShort(buf, 4);
    var tableNum := ToShort(n);
    if opcode < 0 || opcode > 100 {
      return if HasPointer(code) then Wild else Null;
    }
    var content := GetPayload(buf, 6, code);
    r := match content
         case Null => Null
         case Wild => Wild
         case Read(c, end) => Read(Message(opcode, tableNum, c), end);
  }

  /** The switch of buffer_to_message over the content type. */
  method GetPayload(buf: array<Byte>, ptr: nat, code: int) returns (r: Reading<Content>)
    requires ptr <= buf.Length
    ensures Matches(r, ParsePayload(code, From(buf, ptr)), buf, ptr)
  {
    r := Null;
    if code == CT_NO_DATA {
      r := Read(NoData, ptr);
    } else if code == CT_RESULT {
      if ptr + 4 > buf.Length {
        return Wild;
      }
      var n := GetInt(buf, ptr);
      r := Read(Result(ToInt(n)), ptr + 4);
    } else if code == CT_KEY {
      r := GetKeyOnly(buf, ptr);
    } else if code == CT_KEYS {
      r := GetKeyList(buf, ptr);
    } else if code == CT_VALUE {
      var data := GetData(buf, ptr);
      r := match data case Null => Null case Wild => Wild case Read(block, end) => Read(Value(block), end);
    } else if code == CT_ENTRY {
      r := GetEntry(buf, ptr);
    }
  }

  method GetKeyOnly(buf: array<Byte>, ptr: nat) returns (r: Reading<Content>)
    requires ptr <= buf.Length
    ensures Matches(r, ParseKeyOnly(From(buf, ptr)), buf, ptr)
  {
    if ptr + 2 > buf.Length {
      return Wild;
    }
    var length := GetShort(buf, ptr);
    if ptr + 2 + length > buf.Length {
      return Wild;
    }
    assert From(buf, ptr)[2..2 + length] == buf[ptr + 2..ptr + 2 + length];
    r := Read(KeyOnly(CStr(buf[ptr + 2..ptr + 2 + length])), ptr + 2 + length);
  }

  method GetKeyList(buf: array<Byte>, ptr: nat) returns (r: Reading<Content>)
    requires ptr <= buf.Length
    ensures Matches(r, ParseKeyList(From(buf, ptr)), buf, ptr)
  {
    if ptr + 4 > buf.Length {
      return Wild;
    }
    var n := GetInt(buf, ptr);
    var count := ToInt(n);
    if count == -1 || count == INT_MAX {
      return Wild;
    }
    if count < -1 {
      return Null;
    }
    assert From(buf, ptr)[4..] == From(buf, ptr + 4);
    var keys := GetKeys(buf, ptr + 4, count);
    r := match keys case Null => Null case Wild => Wild case Read(list, end) => Read(Keys(list), end);
  }

  method GetEntry(buf: array<Byte>, ptr: nat) returns (r: Reading<Content>)
    requires ptr <= buf.Length
    ensures Matches(r, ParseEntry(From(buf, ptr)), buf, ptr)
  {
    var first := GetKey(buf, ptr);
    match first
    case Null => return Null;
    case Wild => return Wild;
    case Read(key, end) =>
      assert From(buf, ptr)[end - ptr..] == From(buf, end);
      var second := GetData(buf, end);
      match second
      case Null => r := Null;
      case Wild => r := Wild;
      case Read(data, last) => r := if data == [] then Null else Read(Entry(key, data), last);
  }
}
