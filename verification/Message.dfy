/**
 The binary message format of Part 1 on sequences of bytes: what message_to_buffer writes, what
 buffer_to_message makes of a buffer, and when the two undo each other.
 */
module Message {
  import opened CStrings

  type Short = s: int | -0x8000 <= s < 0x8000

  const INT_MAX := 0x7FFF_FFFF

  type Int = i: int | -0x8000_0000 <= i <= INT_MAX

  /** The payload by content type; Other stands for a type code that the format does not define. */
  datatype Content =
    | NoData
    | Result(result: Int)
    | Value(data: seq<Byte>)
    | KeyOnly(key: CString)
    | Keys(keys: seq<CString>)
    | Entry(entryKey: CString, entryData: seq<Byte>)
    | Other(code: Short)

  datatype Message = Message(opcode: Short, tableNum: Short, content: Content)

  const CT_NO_DATA := 5
  const CT_RESULT := 10
  const CT_VALUE := 20
  const CT_KEY := 30
  const CT_KEYS := 40
  const CT_ENTRY := 50

  /** The structures that the program can hold: counts and sizes are of type int. */
  predicate WellTyped(m: Message) {
    match m.content
    case Value(data) => |data| <= INT_MAX
    case Entry(_, data) => |data| <= INT_MAX
    case Keys(keys) => |keys| <= INT_MAX
    case Other(code) => code !in {CT_NO_DATA, CT_RESULT, CT_VALUE, CT_KEY, CT_KEYS, CT_ENTRY}
    case _ => true
  }

  function CType(c: Content): Short {
    match c
    case NoData => CT_NO_DATA
    case Result(_) => CT_RESULT
    case Value(_) => CT_VALUE
    case KeyOnly(_) => CT_KEY
    case Keys(_) => CT_KEYS
    case Entry(_, _) => CT_ENTRY
    case Other(code) => code
  }

  // ---------------------------------------------------------------- fields in network byte order

  /** htons, and htonl below: the low bits of the number, the most significant byte first. */
  function U16(n: int): (b: seq<Byte>)
    ensures |b| == 2
  {
    [n % 0x1_0000 / 0x100, n % 0x100]
  }

  function U32(n: int): (b: seq<Byte>)
    ensures |b| == 4
  {
    U16(n / 0x1_0000) + U16(n)
  }

  /** ntohs and ntohl, as unsigned numbers. */
  function Read16(b: seq<Byte>): (n: nat)
    requires |b| >= 2
    ensures n < 0x1_0000
  {
    var high: int := b[0];
    high * 0x100 + b[1]
  }

  function Read32(b: seq<Byte>): (n: nat)
    requires |b| >= 4
    ensures n < 0x1_0000_0000
  {
    Read16(b) * 0x1_0000 + Read16(b[2..])
  }

  /** The same bits read as a signed number. */
  function ToShort(n: nat): Short
    requires n < 0x1_0000
  {
    if n < 0x8000 then n else n - 0x1_0000
  }

  function ToInt(n: nat): Int
    requires n < 0x1_0000_0000
  {
    if n <= INT_MAX then n else n - 0x1_0000_0000
  }

  // ---------------------------------------------------------------- writing

  /** The bytes of a string without its terminator. */
  function Bytes(s: CString): (b: seq<Byte>)
    ensures b == s
  {
    s
  }

  function KeyField(key: CString): seq<Byte> {
    U16(|key|) + Bytes(key)
  }

  function KeyFields(keys: seq<CString>): seq<Byte> {
    if keys == [] then [] else KeyField(keys[0]) + KeyFields(keys[1..])
  }

  function Payload(c: Content): seq<Byte> {
    match c
    case NoData => []
    case Other(_) => []
    case Result(result) => U32(result)
    case Value(data) => U32(|data|) + data
    case KeyOnly(key) => KeyField(key)
    case Keys(keys) => U32(|keys|) + KeyFields(keys)
    case Entry(key, data) => KeyField(key) + (U32(|data|) + data)
  }

  function Header(m: Message): (b: seq<Byte>)
    ensures |b| == 6
  {
    U16(m.opcode) + U16(CType(m.content)) + U16(m.tableNum)
  }

  /** All the bytes that the writing pass puts into the buffer. */
  function Serialize(m: Message): seq<Byte> {
    Header(m) + Payload(m.content)
  }

  // ---------------------------------------------------------------- reading

  /** The string that a C program sees in a block of bytes with a terminator behind it. */
  function CStr(b: seq<Byte>): CString {
    if b == [] || b[0] == 0 then [] else [b[0]] + CStr(b[1..])
  }

  function CStrs(fields: seq<seq<Byte>>): (keys: seq<CString>)
    ensures |keys| == |fields|
  {
    if fields == [] then [] else [CStr(fields[0])] + CStrs(fields[1..])
  }

  /**
   Got: the value, the key fields as they stand in the buffer, and the number of bytes read. Refused: the
   parser answers NULL. Faults: it reads or writes outside its memory, as it never looks at msg_size.
   */
  datatype Parsed<T> = Got(value: T, fields: seq<seq<Byte>>, used: nat) | Refused | Faults

  /** One key field with a signed length: -1 makes the copy run wild, less makes the allocation fail. */
  function ParseShortKey(b: seq<Byte>): Parsed<CString> {
    if |b| < 2 then Faults
    else
      var length := ToShort(Read16(b));
      if length == -1 then Faults
      else if length < -1 then Refused
      else if |b| < 2 + length then Faults
      else Got(CStr(b[2..2 + length]), [b[2..2 + length]], 2 + length)
  }

  function ParseKeys(b: seq<Byte>, n: nat): Parsed<seq<CString>>
    decreases n
  {
    if n == 0 then Got([], [], 0)
    else match ParseShortKey(b)
      case Refused => Refused
      case Faults => Faults
      case Got(key, field, used) =>
        if used > |b| then Faults
        else match ParseKeys(b[used..], n - 1)
          case Refused => Refused
          case Faults => Faults
          case Got(keys, fields, more) => Got([key] + keys, field + fields, used + more)
  }

  /** A block of data behind its size, for data_create of Part 1: a negative size is refused. */
  function ParseData(b: seq<Byte>): Parsed<seq<Byte>> {
    if |b| < 4 then Faults
    else
      var size := ToInt(Read32(b));
      if size < 0 then Refused
      else if |b| < 4 + size then Faults
      else Got(b[4..4 + size], [], 4 + size)
  }

  /** The lone key of CT_KEY has an unsigned length. */
  function ParseKeyOnly(b: seq<Byte>): Parsed<Content> {
    if |b| < 2 || |b| < 2 + Read16(b) then Faults
    else Got(KeyOnly(CStr(b[2..2 + Read16(b)])), [b[2..2 + Read16(b)]], 2 + Read16(b))
  }

  /** A count of -1 gives an array without room for its terminator; smaller counts cannot be allocated. */
  function ParseKeyList(b: seq<Byte>): Parsed<Content> {
    if |b| < 4 then Faults
    else
      var n := ToInt(Read32(b));
      if n == -1 || n == INT_MAX then Faults
      else if n < -1 then Refused
      else match ParseKeys(b[4..], n)
        case Refused => Refused
        case Faults => Faults
        case Got(keys, fields, used) => Got(Keys(keys), fields, 4 + used)
  }

  function ParseValue(b: seq<Byte>): Parsed<Content> {
    match ParseData(b)
    case Refused => Refused
    case Faults => Faults
    case Got(data, _, used) => Got(Value(data), [], used)
  }

  /** An entry whose data is empty is given up, as data_dup of an empty block is NULL. */
  function ParseEntry(b: seq<Byte>): Parsed<Content> {
    match ParseShortKey(b)
    case Refused => Refused
    case Faults => Faults
    case Got(key, field, used) =>
      if used > |b| then Faults
      else match ParseData(b[used..])
        case Refused => Refused
        case Faults => Faults
        case Got(data, _, more) => if data == [] then Refused else Got(Entry(key, data), field, used + more)
  }

  function ParsePayload(code: int, b: seq<Byte>): Parsed<Content> {
    if code == CT_NO_DATA then Got(NoData, [], 0)
    else if code == CT_RESULT then
      if |b| < 4 then Faults else Got(Result(ToInt(Read32(b))), [], 4)
    else if code == CT_KEY then ParseKeyOnly(b)
    else if code == CT_KEYS then ParseKeyList(b)
    else if code == CT_VALUE then ParseValue(b)
    else if code == CT_ENTRY then ParseEntry(b)
    else Refused
  }

  /** The types with which free_message frees a pointer out of the union of contents. */
  predicate HasPointer(code: int) {
    code in {CT_VALUE, CT_KEY, CT_KEYS, CT_ENTRY}
  }

  /** buffer_to_message. For an opcode out of bounds it frees the contents before anything was read into them. */
  function Parse(b: seq<Byte>): Parsed<Message> {
    if |b| < 6 then Faults
    else
      var opcode := ToShort(Read16(b));
      var code := ToShort(Read16(b[2..]));
      var tableNum := ToShort(Read16(b[4..]));
      if opcode < 0 || opcode > 100 then (if HasPointer(code) then Faults else Refused)
      else match ParsePayload(code, b[6..])
        case Refused => Refused
        case Faults => Faults
        case Got(content, fields, used) => Got(Message(opcode, tableNum, content), fields, 6 + used)
  }

  // ---------------------------------------------------------------- facts about fields

  lemma Read16U16(n: int, rest: seq<Byte>)
    ensures Read16(U16(n) + rest) == n % 0x1_0000
    ensures (U16(n) + rest)[2..] == rest
  {
  }

  lemma Read32U32(n: int, rest: seq<Byte>)
    ensures Read32(U32(n) + rest) == n % 0x1_0000_0000
    ensures (U32(n) + rest)[4..] == rest
  {
    assert U32(n) + rest == U16(n / 0x1_0000) + (U16(n) + rest);
    Read16U16(n / 0x1_0000, U16(n) + rest);
    Read16U16(n, rest);
  }

  lemma ShortRoundTrip(s: Short)
    ensures ToShort(s % 0x1_0000) == s
  {
  }

  lemma IntRoundTrip(i: Int)
    ensures ToInt(i % 0x1_0000_0000) == i
  {
  }

  lemma {:induction false} CStrFacts(b: seq<Byte>)
    ensures |CStr(b)| <= |b|
    ensures |CStr(b)| == |b| <==> 0 !in b
    ensures 0 !in b ==> CStr(b) == b
  {
    if b != [] && b[0] != 0 {
      CStrFacts(b[1..]);
      assert b == [b[0]] + b[1..];
    }
  }

  /** A string ends at the first zero, or at the end of the block. */
  lemma {:induction false} CStrEndsAtFirstZero(b: seq<Byte>)
    ensures |CStr(b)| <= |b| && CStr(b) == b[..|CStr(b)|] && 0 !in CStr(b)
    ensures |CStr(b)| < |b| ==> b[|CStr(b)|] == 0
  {
    if b != [] && b[0] != 0 {
      CStrEndsAtFirstZero(b[1..]);
      assert b[..|CStr(b)|] == [b[0]] + b[1..][..|CStr(b[1..])|];
    }
  }

  // ---------------------------------------------------------------- the layout on the wire

  /** The number that bytes stand for in network order: the value of the digits, most significant first. */
  function Digits(b: seq<Byte>): nat
    decreases |b|
  {
    if b == [] then 0 else 256 * Digits(b[..|b| - 1]) + b[|b| - 1]
  }

  lemma ReadsDigits(b: seq<Byte>)
    ensures |b| >= 2 ==> Read16(b) == Digits(b[..2])
    ensures |b| >= 4 ==> Read32(b) == Digits(b[..4])
  {
    if |b| >= 2 {
      assert b[..2][..1] == b[..1] && b[..1][..0] == [];
      assert Digits(b[..1]) == b[0];
    }
    if |b| >= 4 {
      assert b[..4][..3] == b[..3] && b[..3][..2] == b[..2];
    }
  }

  /** The documented layout of one key field: two bytes of size, then the key. */
  ghost predicate HoldsKey(b: seq<Byte>, at: nat, key: CString) {
    && at + 2 + |key| <= |b|
    && Digits(b[at..at + 2]) == |key| % 0x1_0000
    && b[at + 2..at + 2 + |key|] == Bytes(key)
  }

  /** The documented layout of a block of data: four bytes of size, then the data. */
  ghost predicate HoldsData(b: seq<Byte>, at: nat, data: seq<Byte>) {
    && at + 4 + |data| <= |b|
    && Digits(b[at..at + 4]) == |data| % 0x1_0000_0000
    && b[at + 4..at + 4 + |data|] == data
  }

  /** The documented layout of a counted list: the fields of the keys one behind the other, up to a place. */
  ghost predicate HoldsKeys(b: seq<Byte>, at: nat, keys: seq<CString>, end: nat)
    decreases |keys|
  {
    if keys == [] then at == end
    else HoldsKey(b, at, keys[0]) && HoldsKeys(b, at + 2 + |keys[0]|, keys[1..], end)
  }

  lemma KeyFieldLayout(b: seq<Byte>, at: nat, key: CString, rest: seq<Byte>)
    requires at <= |b| && b[at..] == KeyField(key) + rest
    ensures HoldsKey(b, at, key) && b[at + 2 + |key|..] == rest
  {
    var field := b[at..];
    assert field == U16(|key|) + (Bytes(key) + rest);
    Read16U16(|key|, Bytes(key) + rest);
    ReadsDigits(field);
    assert field[..2] == b[at..at + 2];
    assert b[at + 2..] == field[2..] && b[at + 2 + |key|..] == field[2..][|key|..];
    assert b[at + 2..at + 2 + |key|] == field[2..][..|key|];
  }

  lemma DataLayout(b: seq<Byte>, at: nat, data: seq<Byte>)
    requires at <= |b| && b[at..] == U32(|data|) + data
    ensures HoldsData(b, at, data)
  {
    Read32U32(|data|, data);
    ReadsDigits(b[at..]);
    assert b[at..][..4] == b[at..at + 4];
    assert b[at + 4..at + 4 + |data|] == b[at..][4..];
  }

  lemma {:induction false} KeyFieldsLayout(b: seq<Byte>, at: nat, keys: seq<CString>)
    requires at <= |b| && b[at..] == KeyFields(keys)
    ensures HoldsKeys(b, at, keys, |b|)
    decreases |keys|
  {
    if keys != [] {
      KeyFieldLayout(b, at, keys[0], KeyFields(keys[1..]));
      KeyFieldsLayout(b, at + 2 + |keys[0]|, keys[1..]);
    }
  }

  /** The code of each type of content, as the documented format numbers them. */
  lemma TypeCodes(c: Content)
    ensures match c
            case NoData => CType(c) == 5
            case Result(_) => CType(c) == 10
            case Value(_) => CType(c) == 20
            case KeyOnly(_) => CType(c) == 30
            case Keys(_) => CType(c) == 40
            case Entry(_, _) => CType(c) == 50
            case Other(code) => CType(c) == code
  {
  }

  /** The bytes of a message are laid out field by field as the format is documented. */
  lemma Layout(m: Message)
    ensures var b := Serialize(m);
            && |b| >= 6
            && Digits(b[0..2]) == m.opcode % 0x1_0000
            && Digits(b[4..6]) == m.tableNum % 0x1_0000
            && var code := Digits(b[2..4]);
               match m.content
               case NoData => code == 5 && |b| == 6
               case Other(other) => code == other % 0x1_0000 && |b| == 6
               case Result(result) => code == 10 && |b| == 10 && Digits(b[6..10]) == result % 0x1_0000_0000
               case Value(data) => code == 20 && |b| == 10 + |data| && HoldsData(b, 6, data)
               case KeyOnly(key) => code == 30 && |b| == 8 + |key| && HoldsKey(b, 6, key)
               case Keys(keys) =>
                 && code == 40 && |b| >= 10
                 && Digits(b[6..10]) == |keys| % 0x1_0000_0000
                 && HoldsKeys(b, 10, keys, |b|)
               case Entry(key, data) =>
                 && code == 50 && |b| == 12 + |key| + |data|
                 && HoldsKey(b, 6, key)
                 && HoldsData(b, 8 + |key|, data)
  {
    var b, body := Serialize(m), Payload(m.content);
    HeaderDigits(m, body);
    TypeCodes(m.content);
    assert b[6..] == body == body + [];
    match m.content
    case NoData =>
    case Other(_) =>
    case Result(result) => ResultLayout(b, result);
    case Value(data) => DataLayout(b, 6, data);
    case KeyOnly(key) => KeyFieldLayout(b, 6, key, []);
    case Keys(keys) => KeyListLayout(b, keys);
    case Entry(key, data) => EntryLayout(b, key, data);
  }

  lemma ResultLayout(b: seq<Byte>, result: Int)
    requires |b| >= 6 && b[6..] == U32(result)
    ensures |b| == 10 && Digits(b[6..10]) == result % 0x1_0000_0000
  {
    assert U32(result) + [] == U32(result);
    Read32U32(result, []);
    ReadsDigits(b[6..]);
    assert b[6..][..4] == b[6..10];
  }

  lemma KeyListLayout(b: seq<Byte>, keys: seq<CString>)
    requires |b| >= 6 && b[6..] == U32(|keys|) + KeyFields(keys)
    ensures |b| >= 10 && Digits(b[6..10]) == |keys| % 0x1_0000_0000 && HoldsKeys(b, 10, keys, |b|)
  {
    Read32U32(|keys|, KeyFields(keys));
    ReadsDigits(b[6..]);
    assert b[6..][..4] == b[6..10];
    assert b[10..] == b[6..][4..];
    KeyFieldsLayout(b, 10, keys);
  }

  lemma EntryLayout(b: seq<Byte>, key: CString, data: seq<Byte>)
    requires |b| >= 6 && b[6..] == KeyField(key) + (U32(|data|) + data)
    ensures |b| == 12 + |key| + |data| && HoldsKey(b, 6, key) && HoldsData(b, 8 + |key|, data)
  {
    KeyFieldLayout(b, 6, key, U32(|data|) + data);
    DataLayout(b, 8 + |key|, data);
  }

  lemma HeaderDigits(m: Message, body: seq<Byte>)
    ensures var b := Header(m) + body;
            && Digits(b[0..2]) == m.opcode % 0x1_0000
            && Digits(b[2..4]) == CType(m.content) % 0x1_0000
            && Digits(b[4..6]) == m.tableNum % 0x1_0000
  {
    var b := Header(m) + body;
    HeaderLayout(m, body);
    ReadsDigits(b);
    ReadsDigits(b[2..]);
    ReadsDigits(b[4..]);
    assert b[2..][..2] == b[2..4] && b[4..][..2] == b[4..6] && b[0..2] == b[..2];
  }

  lemma HeaderLayout(m: Message, body: seq<Byte>)
    ensures var b := Header(m) + body;
            && Read16(b) == m.opcode % 0x1_0000
            && Read16(b[2..]) == CType(m.content) % 0x1_0000
            && Read16(b[4..]) == m.tableNum % 0x1_0000
            && b[6..] == body
  {
    var b := Header(m) + body;
    var afterType := U16(m.tableNum) + body;
    var afterOpcode := U16(CType(m.content)) + afterType;
    assert b == U16(m.opcode) + afterOpcode;
    Read16U16(m.opcode, afterOpcode);
    Read16U16(CType(m.content), afterType);
    Read16U16(m.tableNum, body);
    assert b[2..] == afterOpcode && b[4..] == afterType;
  }

  // ---------------------------------------------------------------- write, then read

  /** Every length fits in a short. */
  predicate AllShort(keys: seq<CString>) {
    forall i :: 0 <= i < |keys| ==> |keys[i]| < 0x8000
  }

  /** The contents that survive the trip, by what a caller can check beforehand. */
  predicate EncodableContent(c: Content) {
    match c
    case KeyOnly(key) => |key| < 0x1_0000
    case Keys(keys) => |keys| < INT_MAX && AllShort(keys)
    case Entry(key, data) => |key| < 0x8000 && data != []
    case Other(_) => false
    case _ => true
  }

  predicate Encodable(m: Message) {
    0 <= m.opcode <= 100 && EncodableContent(m.content)
  }

  /** Reading gives this value and stops right behind it. */
  predicate Reads<T(==)>(p: Parsed<T>, value: T, used: nat) {
    p.Got? && p.value == value && p.used == used
  }

  lemma ShortKeyRoundTrip(key: CString, rest: seq<Byte>)
    ensures |key| < 0x8000 ==> ParseShortKey(KeyField(key) + rest) == Got(key, [Bytes(key)], |KeyField(key)|)
    ensures |key| >= 0x8000 && ParseShortKey(KeyField(key) + rest).Got? ==>
              ParseShortKey(KeyField(key) + rest).value != key
  {
    var b := KeyField(key) + rest;
    assert b == U16(|key|) + (Bytes(key) + rest);
    Read16U16(|key|, Bytes(key) + rest);
    var length := ToShort(Read16(b));
    if 0 <= length {
      CStrFacts(b[2..2 + length]);
      assert |key| < 0x8000 ==> length == |key| && b[2..2 + length] == Bytes(key);
    }
  }

  lemma AllShortCons(keys: seq<CString>)
    requires keys != []
    ensures AllShort(keys) <==> |keys[0]| < 0x8000 && AllShort(keys[1..])
  {
    assert forall i :: 0 < i < |keys| ==> keys[i] == keys[1..][i - 1];
    assert forall i :: 0 <= i < |keys[1..]| ==> keys[1..][i] == keys[i + 1];
  }

  lemma {:induction false} KeysRoundTrip(keys: seq<CString>, rest: seq<Byte>)
    ensures Reads(ParseKeys(KeyFields(keys) + rest, |keys|), keys, |KeyFields(keys)|) <==> AllShort(keys)
    decreases |keys|
  {
    if keys != [] {
      var first, others := keys[0], keys[1..];
      var more := KeyFields(others) + rest;
      assert KeyFields(keys) + rest == KeyField(first) + more;
      assert keys == [first] + others;
      AllShortCons(keys);
      if |first| < 0x8000 {
        KeysRoundTrip(others, rest);
      }
      FirstKeyRoundTrip(first, others, more);
    }
  }

  /** A list of keys is read back exactly if its first key is short and the others are read back. */
  lemma FirstKeyRoundTrip(first: CString, others: seq<CString>, more: seq<Byte>)
    ensures var keys := [first] + others;
            Reads(ParseKeys(KeyField(first) + more, |keys|), keys, |KeyFields(keys)|) <==>
            |first| < 0x8000 && Reads(ParseKeys(more, |others|), others, |KeyFields(others)|)
  {
    var keys, b := [first] + others, KeyField(first) + more;
    assert keys[1..] == others;
    assert |KeyFields(keys)| == |KeyField(first)| + |KeyFields(others)|;
    ShortKeyRoundTrip(first, more);
    if |first| < 0x8000 {
      assert b[|KeyField(first)|..] == more;
      ConsIff(first, others, ParseKeys(more, |others|));
    }
  }

  /** The parsed list is right exactly if its tail is, once its head is. */
  lemma ConsIff(first: CString, others: seq<CString>, tail: Parsed<seq<CString>>)
    ensures tail.Got? ==> ([first] + tail.value == [first] + others <==> tail.value == others)
  {
    if tail.Got? {
      assert ([first] + tail.value)[1..] == tail.value && ([first] + others)[1..] == others;
    }
  }

  lemma DataRoundTrip(data: seq<Byte>, rest: seq<Byte>)
    requires |data| <= INT_MAX
    ensures ParseData(U32(|data|) + data + rest) == Got(data, [], 4 + |data|)
  {
    var b := U32(|data|) + data + rest;
    assert b == U32(|data|) + (data + rest);
    Read32U32(|data|, data + rest);
    IntRoundTrip(|data|);
    assert b[4..] == data + rest;
    assert b[4..4 + |data|] == b[4..][..|data|] == data;
  }

  lemma KeyRoundTrip(key: CString, rest: seq<Byte>)
    ensures Reads(ParseKeyOnly(KeyField(key) + rest), KeyOnly(key), |KeyField(key)|) <==> |key| < 0x1_0000
  {
    var b := KeyField(key) + rest;
    assert b == U16(|key|) + (Bytes(key) + rest);
    Read16U16(|key|, Bytes(key) + rest);
    var n := Read16(b);
    assert b[2..] == Bytes(key) + rest;
    assert n <= |key| && (n == |key| <==> |key| < 0x1_0000);
    var field := b[2..2 + n];
    CStrFacts(field);
    if n == |key| {
      assert field == Bytes(key);
    } else {
      assert CStr(field) != key;
    }
  }

  lemma KeyListRoundTrip(keys: seq<CString>, rest: seq<Byte>)
    requires |keys| <= INT_MAX
    ensures Reads(ParseKeyList(U32(|keys|) + KeyFields(keys) + rest), Keys(keys), 4 + |KeyFields(keys)|) <==>
            EncodableContent(Keys(keys))
  {
    var fields := KeyFields(keys) + rest;
    var b := U32(|keys|) + KeyFields(keys) + rest;
    assert b == U32(|keys|) + fields;
    Read32U32(|keys|, fields);
    IntRoundTrip(|keys|);
    KeysRoundTrip(keys, rest);
    assert |b| >= 4 && b[4..] == fields && ToInt(Read32(b)) == |keys|;
  }

  lemma EntryRoundTrip(key: CString, data: seq<Byte>, rest: seq<Byte>)
    requires |data| <= INT_MAX
    ensures var block := U32(|data|) + data;
            Reads(ParseEntry(KeyField(key) + (block + rest)), Entry(key, data), |KeyField(key)| + |block|) <==>
            |key| < 0x8000 && data != []
  {
    var block := U32(|data|) + data + rest;
    var b := KeyField(key) + block;
    ShortKeyRoundTrip(key, block);
    DataRoundTrip(data, rest);
    if |key| < 0x8000 {
      assert b[|KeyField(key)|..] == block;
    }
  }

  lemma PayloadRoundTrip(m: Message, rest: seq<Byte>)
    requires WellTyped(m)
    ensures Reads(ParsePayload(CType(m.content), Payload(m.content) + rest), m.content, |Payload(m.content)|) <==>
            EncodableContent(m.content)
  {
    match m.content
    case NoData =>
    case Other(_) =>
    case Result(result) =>
      Read32U32(result, rest);
      IntRoundTrip(result);
    case Value(data) => DataRoundTrip(data, rest);
    case KeyOnly(key) => KeyRoundTrip(key, rest);
    case Keys(keys) => KeyListRoundTrip(keys, rest);
    case Entry(key, data) =>
      EntryRoundTrip(key, data, rest);
      assert Payload(m.content) + rest == KeyField(key) + (U32(|data|) + data + rest);
  }

  /**
   Parsing the bytes of a message, whatever bytes follow them, gives the message back and reads exactly
   its own bytes if and only if the message is encodable.
   */
  lemma RoundTripIff(m: Message, rest: seq<Byte>)
    requires WellTyped(m)
    ensures Reads(Parse(Serialize(m) + rest), m, |Serialize(m)|) <==> Encodable(m)
  {
    var b, body := Serialize(m) + rest, Payload(m.content) + rest;
    assert b == Header(m) + body;
    HeaderRoundTrip(m, body);
    PayloadRoundTrip(m, rest);
    var p := ParsePayload(CType(m.content), body);
    assert |Serialize(m)| == 6 + |Payload(m.content)|;
  }

  lemma HeaderRoundTrip(m: Message, body: seq<Byte>)
    ensures var b := Header(m) + body;
            && ToShort(Read16(b)) == m.opcode
            && ToShort(Read16(b[2..])) == CType(m.content)
            && ToShort(Read16(b[4..])) == m.tableNum
            && b[6..] == body
  {
    HeaderLayout(m, body);
    ShortRoundTrip(m.opcode);
    ShortRoundTrip(CType(m.content));
    ShortRoundTrip(m.tableNum);
  }

  /**
   Behind an opcode out of bounds the parser looks at no content: it answers NULL if the type has no pointer in the
   union of contents, and otherwise frees one that was never set.
   */
  lemma OpcodeOutOfBounds(m: Message, rest: seq<Byte>)
    requires WellTyped(m) && !(0 <= m.opcode <= 100)
    ensures Parse(Serialize(m) + rest).Refused? <==>
            m.content.NoData? || m.content.Result? || m.content.Other?
    ensures !Parse(Serialize(m) + rest).Refused? ==> Parse(Serialize(m) + rest).Faults?
  {
    assert Serialize(m) + rest == Header(m) + (Payload(m.content) + rest);
    HeaderRoundTrip(m, Payload(m.content) + rest);
  }

  /** The bytes of an entry without data are refused by the parser. */
  lemma EmptyEntryIsRefused()
    ensures Parse(Serialize(Message(40, 0, Entry([97], [])))).Refused?
  {
    var body := KeyField([97]) + (U32(0) + []);
    var m := Message(40, 0, Entry([97], []));
    assert Serialize(m) == Header(m) + body;
    HeaderRoundTrip(m, body);
    ShortKeyRoundTrip([97], U32(0) + []);
    DataRoundTrip([], []);
    assert body[3..] == U32(0) + [] + [];
    assert ParseEntry(body).Refused?;
  }

  /** No encodable message's bytes begin another's: the encoding is injective and prefix-free. */
  lemma PrefixFree(m1: Message, m2: Message)
    requires WellTyped(m1) && WellTyped(m2) && Encodable(m1) && Encodable(m2)
    requires Serialize(m1) <= Serialize(m2)
    ensures m1 == m2
  {
    var rest := Serialize(m2)[|Serialize(m1)|..];
    assert Serialize(m2) == Serialize(m1) + rest == Serialize(m2) + [];
    RoundTripIff(m1, rest);
    RoundTripIff(m2, []);
  }

  // ---------------------------------------------------------------- read, then write

  predicate ZeroFree(fields: seq<seq<Byte>>) {
    forall i :: 0 <= i < |fields| ==> 0 !in fields[i]
  }

  lemma ZeroFreeConcat(a: seq<seq<Byte>>, b: seq<seq<Byte>>)
    ensures ZeroFree(a + b) <==> ZeroFree(a) && ZeroFree(b)
  {
    assert forall i :: 0 <= i < |a| ==> (a + b)[i] == a[i];
    assert forall i :: 0 <= i < |b| ==> (a + b)[|a| + i] == b[i];
  }

  lemma ZeroFreeSingle(field: seq<Byte>)
    ensures ZeroFree([field]) <==> 0 !in field
  {
    assert [field][0] == field;
  }

  lemma U16Read16(b: seq<Byte>)
    requires |b| >= 2
    ensures U16(Read16(b)) == b[..2]
    ensures U16(ToShort(Read16(b))) == b[..2]
  {
    var high: int, low: int, n: int := b[0], b[1], Read16(b);
    RemainderIsUnique(n, high, low);
    HalvesAreUnique(n, 0, n);
    U16Low(n - 0x1_0000, n);
  }

  /** Only the low 16 bits of a number matter to U16. */
  lemma U16Low(n: int, low: nat)
    requires n % 0x1_0000 == low < 0x1_0000
    ensures U16(n) == U16(low)
  {
    var q, r := n / 0x1_0000, low % 0x100;
    assert n == 0x1_0000 * q + low;
    RemainderIsUnique(n, 0x100 * q + low / 0x100, r);
  }

  lemma RemainderIsUnique(n: int, q: int, r: nat)
    requires n == 0x100 * q + r && r < 0x100
    ensures n % 0x100 == r && n / 0x100 == q
  {
  }

  lemma HalvesAreUnique(n: int, high: int, low: nat)
    requires n == 0x1_0000 * high + low && low < 0x1_0000
    ensures n / 0x1_0000 == high && n % 0x1_0000 == low
  {
  }

  /** A prefix of a buffer, cut in two. */
  lemma SplitPrefix(b: seq<Byte>, m: nat, n: nat)
    requires m + n <= |b|
    ensures b[..m + n] == b[..m] + b[m..][..n]
  {
  }

  lemma U32Read32(b: seq<Byte>)
    requires |b| >= 4
    ensures U32(ToInt(Read32(b))) == b[..4]
  {
    var high: int, low: int := Read16(b), Read16(b[2..]);
    var i: int := ToInt(Read32(b));
    U16Read16(b);
    U16Read16(b[2..]);
    var sign := if i < 0 then -1 else 0;
    HalvesAreUnique(i, 0x1_0000 * sign + high, low);
    HalvesAreUnique(0x1_0000 * sign + high, sign, high);
    U16Low(i, low);
    U16Low(i / 0x1_0000, high);
    assert b[..4] == b[..2] + b[2..][..2];
  }

  /** A field that is a string is written back as it was read; one with a zero byte comes out shorter. */
  lemma KeyFieldWrittenBack(b: seq<Byte>, length: nat)
    requires |b| >= 2 + length && U16(length) == b[..2]
    ensures var field := b[2..2 + length];
            && |KeyField(CStr(field))| <= 2 + length
            && (0 !in field ==> KeyField(CStr(field)) == b[..2 + length])
            && (0 in field ==> |KeyField(CStr(field))| < 2 + length)
  {
    CStrFacts(b[2..2 + length]);
    assert b[..2 + length] == b[..2] + b[2..2 + length];
  }

  lemma ShortKeyWrittenBack(b: seq<Byte>)
    requires ParseShortKey(b).Got?
    ensures var p := ParseShortKey(b);
            && p.used <= |b|
            && |p.fields| == 1
            && |KeyField(p.value)| <= p.used
            && (ZeroFree(p.fields) ==> KeyField(p.value) == b[..p.used])
            && (!ZeroFree(p.fields) ==> |KeyField(p.value)| < p.used)
  {
    U16Read16(b);
    var length := ToShort(Read16(b));
    KeyFieldWrittenBack(b, length);
    ZeroFreeSingle(b[2..2 + length]);
  }

  lemma {:induction false} KeysWrittenBack(b: seq<Byte>, n: nat)
    requires ParseKeys(b, n).Got?
    ensures var p := ParseKeys(b, n);
            && p.used <= |b|
            && |p.value| == n
            && |KeyFields(p.value)| <= p.used
            && (ZeroFree(p.fields) ==> KeyFields(p.value) == b[..p.used])
            && (!ZeroFree(p.fields) ==> |KeyFields(p.value)| < p.used)
    decreases n
  {
    if n > 0 {
      ShortKeyWrittenBack(b);
      var first := ParseShortKey(b);
      var rest := b[first.used..];
      KeysWrittenBack(rest, n - 1);
      var tail := ParseKeys(rest, n - 1);
      ZeroFreeConcat(first.fields, tail.fields);
      assert ([first.value] + tail.value)[1..] == tail.value;
      SplitPrefix(b, first.used, tail.used);
      assert KeyFields([first.value] + tail.value) == KeyField(first.value) + KeyFields(tail.value);
    }
  }

  lemma DataWrittenBack(b: seq<Byte>)
    requires ParseData(b).Got?
    ensures var p := ParseData(b); p.used <= |b| && U32(|p.value|) + p.value == b[..p.used]
  {
    U32Read32(b);
  }

  /** The payload is written back as it was read exactly if the key fields are strings. */
  predicate WrittenBack(p: Parsed<Content>, b: seq<Byte>)
    requires p.Got?
  {
    p.used <= |b| && (Payload(p.value) == b[..p.used] <==> ZeroFree(p.fields))
  }

  lemma KeyOnlyWrittenBack(b: seq<Byte>)
    requires ParseKeyOnly(b).Got?
    ensures WrittenBack(ParseKeyOnly(b), b)
  {
    U16Read16(b);
    KeyFieldWrittenBack(b, Read16(b));
    ZeroFreeSingle(b[2..2 + Read16(b)]);
  }

  lemma KeyListWrittenBack(b: seq<Byte>)
    requires ParseKeyList(b).Got?
    ensures WrittenBack(ParseKeyList(b), b)
  {
    U32Read32(b);
    var n := ToInt(Read32(b));
    KeysWrittenBack(b[4..], n);
    var keys := ParseKeys(b[4..], n);
    SplitPrefix(b, 4, keys.used);
    assert Payload(Keys(keys.value)) == b[..4] + KeyFields(keys.value);
  }

  lemma EntryWrittenBack(b: seq<Byte>)
    requires ParseEntry(b).Got?
    ensures WrittenBack(ParseEntry(b), b)
  {
    ShortKeyWrittenBack(b);
    var key := ParseShortKey(b);
    var rest := b[key.used..];
    DataWrittenBack(rest);
    var data := ParseData(rest);
    SplitPrefix(b, key.used, data.used);
  }

  lemma PayloadWrittenBack(code: Short, b: seq<Byte>)
    requires ParsePayload(code, b).Got?
    ensures CType(ParsePayload(code, b).value) == code
    ensures WrittenBack(ParsePayload(code, b), b)
  {
    if code == CT_RESULT {
      U32Read32(b);
    } else if code == CT_KEY {
      KeyOnlyWrittenBack(b);
    } else if code == CT_KEYS {
      KeyListWrittenBack(b);
    } else if code == CT_VALUE {
      DataWrittenBack(b);
    } else if code == CT_ENTRY {
      EntryWrittenBack(b);
    }
  }

  /**
   Writing a parsed message gives back exactly the bytes that the parser consumed if and only if no key
   field of the buffer contains a zero byte.
   */
  lemma ParseThenPrintIff(b: seq<Byte>)
    requires Parse(b).Got?
    ensures Parse(b).used <= |b|
    ensures Serialize(Parse(b).value) == b[..Parse(b).used] <==> ZeroFree(Parse(b).fields)
  {
    var code := ToShort(Read16(b[2..]));
    var p := ParsePayload(code, b[6..]);
    PayloadWrittenBack(code, b[6..]);
    HeaderWrittenBack(b);
    SplitPrefix(b, 6, p.used);
    assert Serialize(Parse(b).value) == b[..6] + Payload(p.value);
    SamePrefix(b[..6], Payload(p.value), b[6..][..p.used]);
  }

  lemma SamePrefix(x: seq<Byte>, a: seq<Byte>, b: seq<Byte>)
    ensures x + a == x + b <==> a == b
  {
    assert (x + a)[|x|..] == a && (x + b)[|x|..] == b;
  }

  lemma HeaderWrittenBack(b: seq<Byte>)
    requires |b| >= 6
    ensures U16(ToShort(Read16(b))) + U16(ToShort(Read16(b[2..]))) + U16(ToShort(Read16(b[4..]))) == b[..6]
  {
    U16Read16(b);
    U16Read16(b[2..]);
    U16Read16(b[4..]);
    SplitPrefix(b, 2, 2);
    SplitPrefix(b, 4, 2);
  }

  // ---------------------------------------------------------------- what each length leads to

  /**
   A key field of any signed length: a length that fits the buffer gives the key; -1 makes the copy run wild, as does a
   length beyond the buffer; any other negative length is refused.
   */
  lemma KeyLengthDecides(length: Short, body: seq<Byte>)
    ensures var p := ParseShortKey(U16(length) + body);
            && (0 <= length <= |body| ==> p == Got(CStr(body[..length]), [body[..length]], 2 + length))
            && (length < -1 ==> p.Refused?)
            && (length == -1 || length > |body| ==> p.Faults?)
  {
    Read16U16(length, body);
    ShortRoundTrip(length);
    var b := U16(length) + body;
    if 0 <= length <= |body| {
      assert b[2..2 + length] == body[..length];
    }
  }

  /** A block of data of any signed size: every negative size is refused. */
  lemma DataSizeDecides(size: Int, body: seq<Byte>)
    ensures var p := ParseData(U32(size) + body);
            && (0 <= size <= |body| ==> p == Got(body[..size], [], 4 + size))
            && (size < 0 ==> p.Refused?)
            && (size > |body| ==> p.Faults?)
  {
    Read32U32(size, body);
    IntRoundTrip(size);
    var b := U32(size) + body;
    if 0 <= size <= |body| {
      assert b[4..4 + size] == body[..size];
    }
  }

  /** A list of any signed count: -1 and the largest int make the terminator miss the array. */
  lemma CountDecides(count: Int, body: seq<Byte>)
    ensures var p := ParseKeyList(U32(count) + body);
            && (count < -1 ==> p.Refused?)
            && (count == -1 || count == 0x7FFF_FFFF ==> p.Faults?)
            && (0 <= count < 0x7FFF_FFFF ==>
                  match ParseKeys(body, count)
                  case Got(keys, fields, used) => p == Got(Keys(keys), fields, 4 + used)
                  case Refused => p.Refused?
                  case Faults => p.Faults?)
  {
    Read32U32(count, body);
    IntRoundTrip(count);
  }

  // ---------------------------------------------------------------- buffers that end too early

  lemma ShortKeyIgnoresRest(b: seq<Byte>, rest: seq<Byte>)
    ensures !ParseShortKey(b).Faults? ==> ParseShortKey(b + rest) == ParseShortKey(b)
    ensures ParseShortKey(b).Got? ==> ParseShortKey(b).used <= |b|
  {
    if ParseShortKey(b).Got? {
      var length := ToShort(Read16(b));
      assert (b + rest)[2..2 + length] == b[2..2 + length];
    }
  }

  lemma {:induction false} KeysIgnoreRest(b: seq<Byte>, rest: seq<Byte>, n: nat)
    ensures !ParseKeys(b, n).Faults? ==> ParseKeys(b + rest, n) == ParseKeys(b, n)
    decreases n
  {
    if n > 0 && ParseShortKey(b).Got? {
      ShortKeyIgnoresRest(b, rest);
      var used := ParseShortKey(b).used;
      assert (b + rest)[used..] == b[used..] + rest;
      KeysIgnoreRest(b[used..], rest, n - 1);
    } else {
      ShortKeyIgnoresRest(b, rest);
    }
  }

  lemma DataIgnoresRest(b: seq<Byte>, rest: seq<Byte>)
    ensures !ParseData(b).Faults? ==> ParseData(b + rest) == ParseData(b)
  {
    if |b| >= 4 {
      assert (b + rest)[2..] == b[2..] + rest;
      assert Read32(b + rest) == Read32(b);
    }
    if ParseData(b).Got? {
      var size := ToInt(Read32(b));
      assert (b + rest)[4..4 + size] == b[4..4 + size];
    }
  }

  lemma KeyOnlyIgnoresRest(b: seq<Byte>, rest: seq<Byte>)
    ensures !ParseKeyOnly(b).Faults? ==> ParseKeyOnly(b + rest) == ParseKeyOnly(b)
  {
    if ParseKeyOnly(b).Got? {
      assert (b + rest)[2..2 + Read16(b)] == b[2..2 + Read16(b)];
    }
  }

  lemma EntryIgnoresRest(b: seq<Byte>, rest: seq<Byte>)
    ensures !ParseEntry(b).Faults? ==> ParseEntry(b + rest) == ParseEntry(b)
  {
    ShortKeyIgnoresRest(b, rest);
    if ParseShortKey(b).Got? {
      var used := ParseShortKey(b).used;
      assert (b + rest)[used..] == b[used..] + rest;
      DataIgnoresRest(b[used..], rest);
    }
  }

  lemma KeyListIgnoresRest(b: seq<Byte>, rest: seq<Byte>)
    ensures !ParseKeyList(b).Faults? ==> ParseKeyList(b + rest) == ParseKeyList(b)
  {
    if |b| >= 4 {
      assert (b + rest)[2..] == b[2..] + rest && (b + rest)[4..] == b[4..] + rest;
      assert Read32(b + rest) == Read32(b);
      var n := ToInt(Read32(b));
      if n >= 0 {
        KeysIgnoreRest(b[4..], rest, n);
      }
    }
  }

  lemma PayloadIgnoresRest(code: int, b: seq<Byte>, rest: seq<Byte>)
    ensures !ParsePayload(code, b).Faults? ==> ParsePayload(code, b + rest) == ParsePayload(code, b)
  {
    KeyOnlyIgnoresRest(b, rest);
    KeyListIgnoresRest(b, rest);
    DataIgnoresRest(b, rest);
    EntryIgnoresRest(b, rest);
    if |b| >= 4 {
      assert (b + rest)[2..] == b[2..] + rest;
      assert Read32(b + rest) == Read32(b);
    }
  }

  /** Whatever lies behind a buffer changes nothing, unless the parser leaves the buffer. */
  lemma OnlyFaultsLookFurther(b: seq<Byte>, rest: seq<Byte>)
    ensures !Parse(b).Faults? ==> Parse(b + rest) == Parse(b)
  {
    if |b| >= 6 {
      assert (b + rest)[2..] == b[2..] + rest;
      assert (b + rest)[4..] == b[4..] + rest;
      assert (b + rest)[6..] == b[6..] + rest;
      PayloadIgnoresRest(ToShort(Read16(b[2..])), b[6..], rest);
    }
  }

  /** A message cut short anywhere makes the parser read outside the buffer: it never notices the missing bytes. */
  lemma TruncationFaults(m: Message, k: nat)
    requires WellTyped(m) && Encodable(m) && k < |Serialize(m)|
    ensures Parse(Serialize(m)[..k]).Faults?
  {
    var b := Serialize(m);
    RoundTripIff(m, []);
    assert b + [] == b && b[..k] + b[k..] == b;
    OnlyFaultsLookFurther(b[..k], b[k..]);
    if Parse(b[..k]).Got? {
      ParseThenPrintIff(b[..k]);
    }
  }
}
