/** Statement parameters as the server gets them (rsfbclient-rust/src/blr.rs): a description of
    the message and the message itself. */
module Blr {
  import opened Wrappers
  import opened Util
  import opened NullBitmap

  const VERSION5: byte := 5
  const BEGIN: byte := 2
  const MESSAGE: byte := 4
  const SHORT: byte := 7
  const QUAD: byte := 9
  const TEXT: byte := 14
  const INT64: byte := 16
  const BOOL: byte := 23
  const DOUBLE: byte := 27
  const TIMESTAMP: byte := 35
  const EOC: byte := 76
  const END: byte := 255

  /** A parameter; a floating point value is carried as its eight bytes. */
  datatype Param =
    | Text(text: string)
    | Binary(data: seq<byte>)
    | Integer(i: i64)
    | Floating(bits: seq<byte>)
    | Timestamp(date: i32, time: u32)
    | Boolean(b: bool)
    | Null
  {
    predicate Fits() {
      Floating? ==> |bits| == 8
    }
  }

  /** What the parameters are converted with: the charset of the connection, and what comes of
      storing the blob with a given number, its id or an error. */
  datatype Env = Env(encode: string -> Option<seq<byte>>, store: nat -> Result<u64, FbError>, v13: bool)

  // ---------------------------------------------------------------- one parameter

  /** A field of the message, as its description says. */
  datatype Field = TextField(len: u16) | BlobField | IntField | FloatField | TimeField | BoolField {
    function Bytes(): seq<byte> {
      match this
      case TextField(len) => [TEXT] + U16LeBytes(len)
      case BlobField => [QUAD, 0]
      case IntField => [INT64, 0]
      case FloatField => [DOUBLE]
      case TimeField => [TIMESTAMP]
      case BoolField => [BOOL]
    }
  }

  /** What the server is to find in a field. */
  datatype Content =
    | Absent
    | Chars(bytes: seq<byte>)
    | BlobId(id: u64)
    | Int(i: i64)
    | Float(bits: seq<byte>)
    | Time(date: i32, time: u32)
    | Flag(b: bool)
  {
    predicate Fits() {
      (Float? ==> |bits| == 8) && (Chars? ==> |bytes| <= MAX_DATA_LENGTH)
    }

    /** A null is described as an empty text. */
    function Kind(): Field
      requires Fits()
    {
      match this
      case Absent => TextField(0)
      case Chars(bytes) => TextField(|bytes|)
      case BlobId(_) => BlobField
      case Int(_) => IntField
      case Float(_) => FloatField
      case Time(_, _) => TimeField
      case Flag(_) => BoolField
    }

    function Bytes(): seq<byte> {
      match this
      case Absent => []
      case Chars(bytes) => bytes + Zeros(Padding(|bytes|))
      case BlobId(id) => U64Bytes(id)
      case Int(i) => U64Bytes(OfI64(i))
      case Float(bits) => bits
      case Time(date, time) => U32Bytes(OfI32(date)) + U32Bytes(time)
      case Flag(b) => [if b then 1 else 0, 0, 0, 0]
    }

    /** The null indicator of the protocols before 13. */
    function Indicator(): i32 {
      if Absent? then -1 else 0
    }
  }

  /** The data that has to go into a blob: binary data, and a text that is too long. */
  function BlobData(env: Env, p: Param): Option<seq<byte>> {
    match p
    case Binary(data) => Some(data)
    case Text(text) =>
      (match env.encode(text)
       case Some(bytes) => if |bytes| > MAX_DATA_LENGTH then Some(bytes) else None
       case None => None)
    case _ => None
  }

  /** The content sent for a parameter; `k` blobs have been stored before. */
  function ContentOf(env: Env, p: Param, k: nat): (c: Result<Content, FbError>)
    requires p.Fits()
    ensures c.Ok? ==> c.value.Fits() && (c.value.Absent? <==> p.Null?)
    ensures c.Ok? ==> (c.value.BlobId? <==> BlobData(env, p).Some?)
  {
    match BlobData(env, p)
    case Some(_) =>
      (match env.store(k)
       case Ok(id) => Ok(BlobId(id))
       case Err(e) => Err(e))
    case None =>
      match p
      case Text(text) =>
        (match env.encode(text)
         case Some(bytes) => Ok(Chars(bytes))
         case None => Err(InvalidText))
      case Integer(i) => Ok(Int(i))
      case Floating(bits) => Ok(Float(bits))
      case Timestamp(date, time) => Ok(Time(date, time))
      case Boolean(b) => Ok(Flag(b))
      case _ => Ok(Absent)
  }

  // ---------------------------------------------------------------- the message

  ghost predicate ParamsFit(params: seq<Param>) {
    forall i :: 0 <= i < |params| ==> params[i].Fits()
  }

  ghost predicate ContentsFit(contents: seq<Content>) {
    forall i :: 0 <= i < |contents| ==> contents[i].Fits()
  }

  /** The contents of the message; the first parameter that cannot be converted decides the
      error. */
  function Contents(env: Env, params: seq<Param>, k: nat): (r: Result<seq<Content>, FbError>)
    requires ParamsFit(params)
    ensures r.Ok? ==> ContentsFit(r.value) && |r.value| == |params|
    ensures r.Ok? ==> forall i :: 0 <= i < |params| ==> (r.value[i].Absent? <==> params[i].Null?)
    decreases params
  {
    if params == [] then Ok([])
    else
      match ContentOf(env, params[0], k)
      case Err(e) => Err(e)
      case Ok(c) =>
        match Contents(env, params[1..], if c.BlobId? then k + 1 else k)
        case Err(e) => Err(e)
        case Ok(rest) => Ok([c] + rest)
  }

  /** The data of the blobs, in the order they are stored. */
  function Blobs(env: Env, params: seq<Param>): seq<seq<byte>> {
    if params == [] then [] else BlobOf(env, params[0]) + Blobs(env, params[1..])
  }

  function BlobOf(env: Env, p: Param): seq<seq<byte>> {
    match BlobData(env, p)
    case Some(data) => [data]
    case None => []
  }

  function Fields(contents: seq<Content>): seq<byte>
    requires ContentsFit(contents)
  {
    if contents == [] then []
    else contents[0].Kind().Bytes() + [SHORT, 0] + Fields(contents[1..])
  }

  function Value(c: Content, v13: bool): seq<byte> {
    c.Bytes() + if v13 then [] else U32LeBytes(OfI32(c.Indicator()))
  }

  function Values(contents: seq<Content>, v13: bool): seq<byte> {
    if contents == [] then [] else Value(contents[0], v13) + Values(contents[1..], v13)
  }

  /** Two fields a parameter, as the client computes it in 16 bits in a release build; a debug
      build stops when the product does not fit. */
  function FieldCount(n: nat): u16 {
    n % TWO_16 * 2 % TWO_16
  }

  function Description(contents: seq<Content>): seq<byte>
    requires ContentsFit(contents)
  {
    Start() + U16LeBytes(FieldCount(|contents|)) + Fields(contents) + End()
  }

  function Start(): (bytes: seq<byte>)
    ensures |bytes| == 4
  {
    [VERSION5, BEGIN, MESSAGE, 0]
  }

  function End(): (bytes: seq<byte>)
    ensures |bytes| == 2
  {
    [END, EOC]
  }

  function Absences(contents: seq<Content>): (nulls: seq<bool>)
    ensures |nulls| == |contents|
  {
    seq(|contents|, i requires 0 <= i < |contents| => contents[i].Absent?)
  }

  function Message(contents: seq<Content>, v13: bool): seq<byte> {
    (if v13 then Bitmap(Absences(contents)) else []) + Values(contents, v13)
  }

  lemma {:induction false} FieldsConcat(a: seq<Content>, b: seq<Content>)
    requires ContentsFit(a) && ContentsFit(b)
    ensures ContentsFit(a + b) && Fields(a + b) == Fields(a) + Fields(b)
  {
    hide Content.Kind, Content.Fits, Field.Bytes;
    if a == [] {
      assert a + b == b;
    } else {
      assert (a + b)[1..] == a[1..] + b;
      FieldsConcat(a[1..], b);
      assert (a + b)[0] == a[0];
    }
  }

  lemma {:induction false} ValuesConcat(a: seq<Content>, b: seq<Content>, v13: bool)
    ensures Values(a + b, v13) == Values(a, v13) + Values(b, v13)
  {
    hide Value;
    if a == [] {
      assert a + b == b;
    } else {
      assert (a + b)[1..] == a[1..] + b;
      ValuesConcat(a[1..], b, v13);
    }
  }

  // ---------------------------------------------------------------- params_to_blr

  function After(done: seq<Content>, rest: Result<seq<Content>, FbError>): Result<seq<Content>, FbError> {
    match rest
    case Err(e) => Err(e)
    case Ok(contents) => Ok(done + contents)
  }

  lemma BlobCounted(env: Env, p: Param, k: nat)
    requires p.Fits() && ContentOf(env, p, k).Ok?
    ensures |BlobOf(env, p)| == if ContentOf(env, p, k).value.BlobId? then 1 else 0
  {
  }

  /** One more parameter is converted. */
  lemma ContentsNext(env: Env, params: seq<Param>, stored: seq<seq<byte>>, done: seq<Content>)
    requires ParamsFit(params) && params != [] && ContentOf(env, params[0], |stored|).Ok?
    ensures var c := ContentOf(env, params[0], |stored|).value;
            && After(done, Contents(env, params, |stored|))
            == After(done + [c], Contents(env, params[1..], |stored + BlobOf(env, params[0])|))
            && stored + Blobs(env, params) == stored + BlobOf(env, params[0]) + Blobs(env, params[1..])
  {
    hide ContentOf, BlobOf, Contents, Blobs, Content.Fits;
    var c := ContentOf(env, params[0], |stored|).value;
    BlobCounted(env, params[0], |stored|);
    ContentsStep(env, params, |stored|, done);
    BlobsStep(env, params);
    assert stored + Blobs(env, params) == stored + (BlobOf(env, params[0]) + Blobs(env, params[1..]));
  }

  lemma ContentsStep(env: Env, params: seq<Param>, k: nat, done: seq<Content>)
    requires ParamsFit(params) && params != [] && ContentOf(env, params[0], k).Ok?
    ensures var c := ContentOf(env, params[0], k).value;
            && After(done, Contents(env, params, k))
            == After(done + [c], Contents(env, params[1..], if c.BlobId? then k + 1 else k))
  {
    hide ContentOf, Content.Fits;
    var c := ContentOf(env, params[0], k).value;
    var rest := Contents(env, params[1..], if c.BlobId? then k + 1 else k);
    if rest.Ok? {
      assert done + ([c] + rest.value) == done + [c] + rest.value;
    }
  }

  lemma BlobsStep(env: Env, params: seq<Param>)
    requires params != []
    ensures Blobs(env, params) == BlobOf(env, params[0]) + Blobs(env, params[1..])
  {
  }

  /** The conversion stops at the first parameter that fails, and after the last one. */
  lemma ContentsEnd(env: Env, params: seq<Param>, k: nat, done: seq<Content>)
    requires ParamsFit(params)
    ensures params == [] ==> After(done, Contents(env, params, k)) == Ok(done) && Blobs(env, params) == []
    ensures params != [] && ContentOf(env, params[0], k).Err? ==>
              After(done, Contents(env, params, k)) == Err(ContentOf(env, params[0], k).error)
  {
    hide ContentOf;
    assert done + [] == done;
  }

  lemma NothingWritten(env: Env, params: seq<Param>, header: seq<byte>, bitmap: seq<byte>)
    requires ParamsFit(params)
    ensures Written(header, bitmap, header, bitmap, [], env.v13)
    ensures params[0..] == params && After([], Contents(env, params, 0)) == Contents(env, params, 0)
    ensures [] + Blobs(env, params) == Blobs(env, params)
  {
    var all := Contents(env, params, 0);
    assert all.Ok? ==> [] + all.value == all.value;
  }

  /** What has been written for the contents so far. */
  ghost predicate Written(blr: seq<byte>, values: seq<byte>, header: seq<byte>, bitmap: seq<byte>,
                          done: seq<Content>, v13: bool) {
    ContentsFit(done) && blr == header + Fields(done) && values == bitmap + Values(done, v13)
  }

  lemma WrittenNext(header: seq<byte>, bitmap: seq<byte>, done: seq<Content>, c: Content, v13: bool)
    requires ContentsFit(done) && c.Fits()
    ensures Written(header + Fields(done) + c.Kind().Bytes() + [SHORT, 0],
                    bitmap + Values(done, v13) + Value(c, v13), header, bitmap, done + [c], v13)
  {
    hide Content.Bytes, Content.Kind, Content.Fits, Field.Bytes, Value, Fields, Values;
    FieldsAppend(done, c);
    ValuesAppend(done, c, v13);
    assert header + Fields(done) + c.Kind().Bytes() + [SHORT, 0]
        == header + (Fields(done) + (c.Kind().Bytes() + [SHORT, 0]));
    assert bitmap + Values(done, v13) + Value(c, v13) == bitmap + (Values(done, v13) + Value(c, v13));
  }

  lemma FieldsAppend(done: seq<Content>, c: Content)
    requires ContentsFit(done) && c.Fits()
    ensures ContentsFit(done + [c]) && Fields(done + [c]) == Fields(done) + (c.Kind().Bytes() + [SHORT, 0])
  {
    hide Content.Kind, Content.Fits, Field.Bytes;
    FieldsConcat(done, [c]);
    assert [c][1..] == [];
    assert Fields([c]) == c.Kind().Bytes() + [SHORT, 0] + Fields([]);
  }

  lemma ValuesAppend(done: seq<Content>, c: Content, v13: bool)
    ensures Values(done + [c], v13) == Values(done, v13) + Value(c, v13)
  {
    hide Value;
    ValuesConcat(done, [c], v13);
    assert [c][1..] == [];
    assert Values([c], v13) == Value(c, v13) + Values([], v13);
  }

  /** The closure `handle_blob`: the data goes into a blob, and its id into the message. */
  method HandleBlob(env: Env, blr: ByteBuf, values: ByteBuf, data: seq<byte>, stored: seq<seq<byte>>)
    returns (r: Result<seq<seq<byte>>, FbError>)
    requires blr != values
    modifies blr, values
    ensures match env.store(|stored|)
            case Err(e) => r == Err(e)
            case Ok(id) => r == Ok(stored + [data]) && blr.data == old(blr.data) + BlobField.Bytes()
                           && values.data == old(values.data) + BlobId(id).Bytes()
  {
    var id :- env.store(|stored|);
    blr.PutSlice([QUAD]);
    blr.PutSlice([0]);
    values.PutSlice(U64Bytes(id));
    return Ok(stored + [data]);
  }

  /** The type and the value of one parameter. */
  method PutParam(env: Env, blr: ByteBuf, values: ByteBuf, p: Param, stored: seq<seq<byte>>)
    returns (r: Result<seq<seq<byte>>, FbError>)
    requires blr != values && p.Fits()
    modifies blr, values
    ensures match ContentOf(env, p, |stored|)
            case Err(e) => r == Err(e)
            case Ok(c) => r == Ok(stored + BlobOf(env, p)) && Arrives(env, p, c, stored + BlobOf(env, p))
                          && blr.data == old(blr.data) + c.Kind().Bytes()
                          && values.data == old(values.data) + c.Bytes()
  {
    hide U64Bytes, U32Bytes, U16LeBytes, Arrives;
    ParamArrives(env, p, stored);
    assert stored + [] == stored;
    match p
    case Text(text) =>
      var encoded := env.encode(text);
      if encoded.None? {
        return Err(InvalidText);
      }
      var bytes := encoded.value;
      if |bytes| > MAX_DATA_LENGTH {
        r := HandleBlob(env, blr, values, bytes, stored);
        return;
      }
      blr.PutSlice([TEXT]);
      blr.PutSlice(U16LeBytes(|bytes|));
      values.PutSlice(bytes);
      if |bytes| % 4 != 0 {
        assert Zeros(4)[..4 - |bytes| % 4] == Zeros(Padding(|bytes|));
        values.PutSlice(Zeros(4)[..4 - |bytes| % 4]);
      }
      return Ok(stored);
    case Binary(data) =>
      r := HandleBlob(env, blr, values, data, stored);
      return;
    case Integer(i) =>
      blr.PutSlice([INT64, 0]);
      values.PutSlice(U64Bytes(OfI64(i)));
      return Ok(stored);
    case Floating(bits) =>
      blr.PutSlice([DOUBLE]);
      values.PutSlice(bits);
      return Ok(stored);
    case Timestamp(date, time) =>
      blr.PutSlice([TIMESTAMP]);
      values.PutSlice(U32Bytes(OfI32(date)));
      values.PutSlice(U32Bytes(time));
      assert values.data == old(values.data) + (U32Bytes(OfI32(date)) + U32Bytes(time));
      return Ok(stored);
    case Boolean(b) =>
      blr.PutSlice([BOOL]);
      values.PutSlice(if b then [1, 0, 0, 0] else [0, 0, 0, 0]);
      return Ok(stored);
    case Null =>
      blr.PutSlice([TEXT]);
      blr.PutSlice(U16LeBytes(0));
      assert values.data + [] == values.data;
      return Ok(stored);
  }

  // ---------------------------------------------------------------- reading a message

  /** A field description. */
  function ReadField(s: seq<byte>): Parsed<Field> {
    var (tag, s1) :- ReadU8(s);
    if tag == TEXT then
      var (len, s2) :- ReadU16Le(s1);
      Done(TextField(len), s2)
    else if tag == QUAD then
      var (subtype, s2) :- ReadU8(s1);
      if subtype == 0 then Done(BlobField, s2) else Failed(Other("unknown subtype"), s2)
    else if tag == INT64 then
      var (scale, s2) :- ReadU8(s1);
      if scale == 0 then Done(IntField, s2) else Failed(Other("unknown scale"), s2)
    else if tag == DOUBLE then Done(FloatField, s1)
    else if tag == TIMESTAMP then Done(TimeField, s1)
    else if tag == BOOL then Done(BoolField, s1)
    else Failed(Other("unknown type"), s1)
  }

  /** `n` descriptions, each with that of its null indicator behind it. */
  function ReadFields(s: seq<byte>, n: nat): (p: Parsed<seq<Field>>)
    ensures p.Done? ==> |p.value| == n
  {
    if n == 0 then Done([], s)
    else
      var (field, s1) :- ReadField(s);
      var (indicator, s2) :- Take(s1, 2);
      if indicator != [SHORT, 0] then Failed(Other("no null indicator"), s2)
      else
        var (rest, s3) :- ReadFields(s2, n - 1);
        Done([field] + rest, s3)
  }

  /** A message description, blr_version5, blr_begin, blr_message number 0 in front and blr_end,
      blr_eoc behind: the number of fields decides where the fields end. */
  function ReadDescription(s: seq<byte>): (p: Parsed<seq<Field>>)
    ensures p.Done? ==> |p.value| < 0x8000
  {
    var (start, s1) :- Take(s, 4);
    var (count, s2) :- ReadU16Le(s1);
    var (fields, s3) :- ReadFields(s2, count / 2);
    var (end, s4) :- Take(s3, 2);
    if start != [5, 2, 4, 0] || end != [255, 76] then Failed(Other("not a message"), s4)
    else Done(fields, s4)
  }

  function ReadContent(field: Field, s: seq<byte>): Parsed<Content> {
    match field
    case TextField(len) =>
      (var (bytes, s1) :- Take(s, len);
       var (_, s2) :- Take(s1, Padding(len));
       Done(Chars(bytes), s2))
    case BlobField => (var (id, s1) :- ReadU64(s); Done(BlobId(id), s1))
    case IntField => (var (i, s1) :- ReadI64(s); Done(Int(i), s1))
    case FloatField => (var (bits, s1) :- Take(s, 8); Done(Float(bits), s1))
    case TimeField =>
      (var (date, s1) :- ReadI32(s);
       var (time, s2) :- ReadU32(s1);
       Done(Time(date, time), s2))
    case BoolField => (var (b, s1) :- Take(s, 4); Done(Flag(b[0] == 1), s1))
  }

  /** Since protocol 13 a null has no value; before, every value has an indicator behind it. */
  function ReadValue(field: Field, nullBit: Option<bool>, s: seq<byte>): Parsed<Content> {
    if nullBit == Some(true) then Done(Absent, s)
    else
      var (content, s1) :- ReadContent(field, s);
      if nullBit.Some? then Done(content, s1)
      else
        var (indicator, s2) :- ReadI32Le(s1);
        if indicator == 0 then Done(content, s2)
        else if indicator == -1 then Done(Absent, s2)
        else Failed(Other("unknown null indicator"), s2)
  }

  function ReadValues(fields: seq<Field>, bitmap: Option<seq<byte>>, i: nat, s: seq<byte>): Parsed<seq<Content>>
    requires i <= |fields| && (bitmap.Some? ==> |bitmap.value| == BitmapLen(|fields|))
    decreases |fields| - i
  {
    if i == |fields| then Done([], s)
    else
      var bit := if bitmap.Some? then Some(IsNull(bitmap.value, i)) else None;
      var (content, s1) :- ReadValue(fields[i], bit, s);
      var (rest, s2) :- ReadValues(fields, bitmap, i + 1, s1);
      Done([content] + rest, s2)
  }

  function ReadMessage(fields: seq<Field>, v13: bool, s: seq<byte>): Parsed<seq<Content>> {
    if v13 then
      var (bitmap, s1) :- Take(s, BitmapLen(|fields|));
      ReadValues(fields, Some(bitmap), 0, s1)
    else ReadValues(fields, None, 0, s)
  }

  // ---------------------------------------------------------------- the message is understood

  function Kinds(contents: seq<Content>): (fields: seq<Field>)
    requires ContentsFit(contents)
    ensures |fields| == |contents|
    ensures forall i :: 0 <= i < |contents| ==> fields[i] == contents[i].Kind()
  {
    if contents == [] then [] else [contents[0].Kind()] + Kinds(contents[1..])
  }

  lemma FieldRead(field: Field, more: seq<byte>)
    ensures ReadField(field.Bytes() + more) == Done(field, more)
  {
    hide ReadU16Le, U16LeBytes;
    match field
    case TextField(len) =>
      assert field.Bytes() + more == [TEXT] + (U16LeBytes(len) + more);
      U8RoundTrip(TEXT, U16LeBytes(len) + more);
      U16LeRoundTrip(len, more);
    case _ =>
  }

  lemma {:induction false} FieldsRead(contents: seq<Content>, more: seq<byte>)
    requires ContentsFit(contents)
    ensures ReadFields(Fields(contents) + more, |contents|) == Done(Kinds(contents), more)
  {
    hide ReadField, Content.Kind, Field.Bytes, Content.Fits;
    if contents == [] {
      assert Fields(contents) + more == more;
    } else {
      var kind, rest := contents[0].Kind(), Fields(contents[1..]) + more;
      assert Fields(contents) + more == kind.Bytes() + ([SHORT, 0] + rest);
      FieldRead(kind, [SHORT, 0] + rest);
      TakeRoundTrip([SHORT, 0], rest);
      FieldsRead(contents[1..], more);
    }
  }

  /** The server finds the fields the client described exactly when there are fewer than 32768
      parameters; beyond that the 16-bit field count is wrong. */
  lemma DescriptionReadIff(contents: seq<Content>, more: seq<byte>)
    requires ContentsFit(contents)
    ensures ReadDescription(Description(contents) + more) == Done(Kinds(contents), more) <==> |contents| < 0x8000
  {
    hide ReadDescription, Description, Kinds;
    if |contents| < 0x8000 {
      DescriptionRead(contents, more);
    }
  }

  lemma DescriptionRead(contents: seq<Content>, more: seq<byte>)
    requires ContentsFit(contents) && |contents| < 0x8000
    ensures ReadDescription(Description(contents) + more) == Done(Kinds(contents), more)
  {
    hide ReadFields, ReadU16Le, U16LeBytes, Fields, Take, Kinds, FieldCount, ReadDescription, Content.Fits;
    var start, end := Start(), End();
    var count := FieldCount(|contents|);
    var s3 := end + more;
    var s2 := Fields(contents) + s3;
    var s1 := U16LeBytes(count) + s2;
    FourPieces(start, U16LeBytes(count), Fields(contents), end, more);
    TakeRoundTrip(start, s1);
    U16LeRoundTrip(count, s2);
    FieldCountIff(|contents|);
    FieldsRead(contents, s3);
    TakeRoundTrip(end, more);
    PartsRead(start + s1, s1, count, s2, Kinds(contents), s3, more);
  }

  lemma FourPieces(a: seq<byte>, b: seq<byte>, c: seq<byte>, d: seq<byte>, more: seq<byte>)
    ensures a + b + c + d + more == a + (b + (c + (d + more)))
  {
  }

  lemma PartsRead(s: seq<byte>, s1: seq<byte>, count: u16, s2: seq<byte>, fields: seq<Field>, s3: seq<byte>,
                  more: seq<byte>)
    requires Take(s, 4) == Done([5, 2, 4, 0], s1) && ReadU16Le(s1) == Done(count, s2)
    requires ReadFields(s2, count / 2) == Done(fields, s3) && Take(s3, 2) == Done([255, 76], more)
    ensures ReadDescription(s) == Done(fields, more)
  {
  }

  lemma FieldCountIff(n: nat)
    ensures FieldCount(n) == 2 * n <==> n < 0x8000
  {
  }

  lemma ContentRead(c: Content, more: seq<byte>)
    requires c.Fits() && !c.Absent?
    ensures ReadContent(c.Kind(), c.Bytes() + more) == Done(c, more)
  {
    hide ReadU32, ReadU64, ReadI64, ReadI32, Take, U32Bytes, U64Bytes;
    match c
    case Chars(bytes) =>
      var pad := Zeros(Padding(|bytes|));
      assert c.Bytes() + more == bytes + (pad + more);
      TakeRoundTrip(bytes, pad + more);
      TakeRoundTrip(pad, more);
    case BlobId(id) => U64RoundTrip(id, more);
    case Int(i) => I64RoundTrip(i, more);
    case Float(bits) => TakeRoundTrip(bits, more);
    case Time(date, time) =>
      assert c.Bytes() + more == U32Bytes(OfI32(date)) + (U32Bytes(time) + more);
      I32RoundTrip(date, U32Bytes(time) + more);
      U32RoundTrip(time, more);
    case Flag(b) => TakeRoundTrip([if b then 1 else 0, 0, 0, 0], more);
  }

  lemma AbsentRead(s: seq<byte>)
    ensures ReadContent(Absent.Kind(), s) == Done(Chars([]), s)
  {
  }

  lemma ValueRead(c: Content, v13: bool, more: seq<byte>)
    requires c.Fits()
    ensures ReadValue(c.Kind(), if v13 then Some(c.Absent?) else None, Value(c, v13) + more) == Done(c, more)
  {
    hide ReadContent, ReadI32Le, U32LeBytes, Content.Kind, Content.Bytes;
    var indicator := U32LeBytes(OfI32(c.Indicator()));
    if v13 {
      assert Value(c, v13) + more == c.Bytes() + more;
      if c.Absent? {
        NoBytes();
      } else {
        ContentRead(c, more);
      }
    } else {
      assert Value(c, v13) + more == c.Bytes() + (indicator + more);
      I32LeRoundTrip(c.Indicator(), more);
      if c.Absent? {
        NoBytes();
        AbsentRead(indicator + more);
      } else {
        ContentRead(c, indicator + more);
      }
    }
  }

  lemma NoBytes()
    ensures Absent.Bytes() == [] && forall s: seq<byte> :: [] + s == s
  {
  }

  lemma ValuesStep(contents: seq<Content>, v13: bool, i: nat)
    requires i <= |contents|
    ensures Values(contents[i..], v13)
         == if i == |contents| then [] else Value(contents[i], v13) + Values(contents[i + 1..], v13)
  {
  }

  lemma {:induction false} ValuesRead(contents: seq<Content>, v13: bool, i: nat, more: seq<byte>)
    requires ContentsFit(contents) && i <= |contents|
    ensures |Bitmap(Absences(contents))| == BitmapLen(|contents|)
    ensures ReadValues(Kinds(contents), if v13 then Some(Bitmap(Absences(contents))) else None, i,
                       Values(contents[i..], v13) + more)
         == Done(contents[i..], more)
    decreases |contents| - i
  {
    hide ReadValue, Value, Values, Kinds, Content.Kind, Content.Fits, Bitmap, IsNull, BitmapLen;
    BitmapLength(Absences(contents));
    ValuesStep(contents, v13, i);
    if i < |contents| {
      var rest := Values(contents[i + 1..], v13) + more;
      assert Values(contents[i..], v13) + more == Value(contents[i], v13) + rest;
      BitmapAgreement(Absences(contents), i);
      ValueRead(contents[i], v13, rest);
      ValuesRead(contents, v13, i + 1, more);
      assert contents[i..] == [contents[i]] + contents[i + 1..];
    } else {
      assert contents[i..] == [];
      assert Values(contents[i..], v13) + more == more;
    }
  }

  /** In both protocols the server reads from the message what the client put into it, nulls
      included, and the message ends where its description says. */
  lemma MessageRead(contents: seq<Content>, v13: bool, more: seq<byte>)
    requires ContentsFit(contents)
    ensures ReadMessage(Kinds(contents), v13, Message(contents, v13) + more) == Done(contents, more)
  {
    hide ReadValues, Kinds, Bitmap, Values, BitmapLen;
    ValuesRead(contents, v13, 0, more);
    assert contents[0..] == contents;
    var bitmap := Bitmap(Absences(contents));
    if v13 {
      assert Message(contents, v13) + more == bitmap + (Values(contents, v13) + more);
      TakeRoundTrip(bitmap, Values(contents, v13) + more);
    } else {
      assert Message(contents, v13) + more == Values(contents, v13) + more;
    }
  }

  /** Everything is written in groups of four bytes, so that what follows a message in a
      request stays on the grid of the protocol. */
  lemma MessageAligned(contents: seq<Content>, v13: bool)
    requires ContentsFit(contents)
    ensures |Message(contents, v13)| % 4 == 0
  {
    hide Bitmap, Values, BitmapLen;
    BitmapLength(Absences(contents));
    ValuesAligned(contents, v13);
  }

  lemma {:induction false} ValuesAligned(contents: seq<Content>, v13: bool)
    requires ContentsFit(contents)
    ensures |Values(contents, v13)| % 4 == 0
  {
    hide Value, Content.Fits;
    if contents != [] {
      var first, rest := Value(contents[0], v13), Values(contents[1..], v13);
      ValueAligned(contents[0], v13);
      ValuesAligned(contents[1..], v13);
      AlignedSum(|first|, |rest|);
      assert Values(contents, v13) == first + rest;
    }
  }

  lemma AlignedSum(a: nat, b: nat)
    requires a % 4 == 0 && b % 4 == 0
    ensures (a + b) % 4 == 0
  {
  }

  lemma ValueAligned(c: Content, v13: bool)
    requires c.Fits()
    ensures |Value(c, v13)| % 4 == 0
  {
    hide Content.Bytes;
    ContentAligned(c);
  }

  lemma ContentAligned(c: Content)
    requires c.Fits()
    ensures |c.Bytes()| % 4 == 0
  {
  }

  lemma BlobIdStored(env: Env, p: Param, k: nat)
    requires p.Fits() && ContentOf(env, p, k).Ok? && ContentOf(env, p, k).value.BlobId?
    ensures env.store(k) == Ok(ContentOf(env, p, k).value.id) && BlobData(env, p) == Some(BlobOf(env, p)[0])
  {
  }

  /** The content of parameter `i` is that of the parameter; a blob id belongs to the blob that
      holds its data, however many blobs other parameters needed. */
  lemma {:induction false} ContentMeans(env: Env, params: seq<Param>, k: nat, i: nat)
    requires ParamsFit(params) && Contents(env, params, k).Ok? && i < |params|
    ensures var c, blob := Contents(env, params, k).value[i], |Blobs(env, params[..i])|;
            && ContentOf(env, params[i], k + blob) == Ok(c)
            && (c.BlobId? ==> blob < |Blobs(env, params)| && BlobData(env, params[i]) == Some(Blobs(env, params)[blob])
                              && env.store(k + blob) == Ok(c.id))
    decreases i
  {
    hide BlobData, Content.Fits, ContentOf, Contents, BlobOf, Blobs;
    ContentsSplit(env, params, k);
    BlobCounted(env, params[0], k);
    BlobsStep(env, params);
    if i == 0 {
      NoBlobs(env, params);
      if Contents(env, params, k).value[0].BlobId? {
        BlobIdStored(env, params[0], k);
      }
    } else {
      var c := ContentOf(env, params[0], k).value;
      BlobsStep(env, params[..i]);
      assert params[..i][0] == params[0] && params[..i][1..] == params[1..][..i - 1];
      ContentMeans(env, params[1..], if c.BlobId? then k + 1 else k, i - 1);
    }
  }

  lemma NoBlobs(env: Env, params: seq<Param>)
    ensures Blobs(env, params[..0]) == []
  {
  }

  lemma ContentsSplit(env: Env, params: seq<Param>, k: nat)
    requires ParamsFit(params) && params != [] && Contents(env, params, k).Ok?
    ensures ContentOf(env, params[0], k).Ok?
    ensures var c := ContentOf(env, params[0], k).value;
            var rest := Contents(env, params[1..], if c.BlobId? then k + 1 else k);
            rest.Ok? && Contents(env, params, k).value == [c] + rest.value
  {
  }

  // ---------------------------------------------------------------- from parameters to the server

  /** The data is that of a stored blob, whose id was sent. */
  ghost predicate SentAsBlob(env: Env, data: seq<byte>, c: Content, stored: seq<seq<byte>>) {
    c.BlobId? && exists k :: 0 <= k < |stored| && stored[k] == data && env.store(k) == Ok(c.id)
  }

  /** What the server finds is what the parameter is: a number, a time and a flag by their value,
      a text by its encoding, or, if that is longer than 32767 bytes, by a blob that holds it, and
      binary data by a blob; nothing is found for a null and for nothing else. */
  ghost predicate Arrives(env: Env, p: Param, c: Content, stored: seq<seq<byte>>) {
    match p
    case Integer(i) => c.Int? && c.i == i
    case Floating(bits) => c.Float? && c.bits == bits
    case Timestamp(date, time) => c.Time? && c.date == date && c.time == time
    case Boolean(b) => c.Flag? && c.b == b
    case Null => c.Absent?
    case Binary(data) => SentAsBlob(env, data, c, stored)
    case Text(text) =>
      env.encode(text).Some?
      && var bytes := env.encode(text).value;
         if |bytes| <= 32767 then c.Chars? && c.bytes == bytes else SentAsBlob(env, bytes, c, stored)
  }

  ghost predicate AllArrive(env: Env, params: seq<Param>, contents: seq<Content>, stored: seq<seq<byte>>) {
    |contents| == |params| && forall i :: 0 <= i < |params| ==> Arrives(env, params[i], contents[i], stored)
  }

  lemma ContentArrives(env: Env, p: Param, k: nat, c: Content, stored: seq<seq<byte>>)
    requires p.Fits() && ContentOf(env, p, k) == Ok(c)
    requires c.BlobId? ==> k < |stored| && BlobData(env, p) == Some(stored[k])
    ensures Arrives(env, p, c, stored)
  {
  }

  lemma ParamArrives(env: Env, p: Param, stored: seq<seq<byte>>)
    requires p.Fits()
    ensures var c := ContentOf(env, p, |stored|);
            c.Ok? ==> Arrives(env, p, c.value, stored + BlobOf(env, p))
  {
    hide Arrives, Content.Fits;
    if ContentOf(env, p, |stored|).Ok? {
      ContentArrives(env, p, |stored|, ContentOf(env, p, |stored|).value, stored + BlobOf(env, p));
    }
  }

  lemma ContentsArrive(env: Env, params: seq<Param>)
    requires ParamsFit(params) && Contents(env, params, 0).Ok?
    ensures AllArrive(env, params, Contents(env, params, 0).value, Blobs(env, params))
  {
    hide ContentOf, BlobData, Arrives, Contents, Blobs, Content.Fits;
    var contents, stored := Contents(env, params, 0).value, Blobs(env, params);
    forall i | 0 <= i < |params| ensures Arrives(env, params[i], contents[i], stored) {
      ContentMeans(env, params, 0, i);
      ContentArrives(env, params[i], |Blobs(env, params[..i])|, contents[i], stored);
    }
  }

  /** A server that reads the description, and by it the message, finds everything. */
  ghost predicate Understood(env: Env, params: seq<Param>, description: seq<byte>, message: seq<byte>,
                             stored: seq<seq<byte>>) {
    exists fields: seq<Field>, contents: seq<Content> ::
      ReadDescription(description) == Done(fields, []) && ReadMessage(fields, env.v13, message) == Done(contents, [])
      && AllArrive(env, params, contents, stored)
  }

  lemma ParamsArrive(env: Env, params: seq<Param>)
    requires ParamsFit(params) && Contents(env, params, 0).Ok? && |params| < 0x8000
    ensures var contents := Contents(env, params, 0).value;
            Understood(env, params, Description(contents), Message(contents, env.v13), Blobs(env, params))
  {
    hide ReadDescription, ReadMessage, Description, Message, Kinds, Contents, Blobs, AllArrive, Content.Fits;
    var contents := Contents(env, params, 0).value;
    DescriptionRead(contents, []);
    MessageRead(contents, env.v13, []);
    ContentsArrive(env, params);
    assert Description(contents) + [] == Description(contents);
    assert Message(contents, env.v13) + [] == Message(contents, env.v13);
    assert ReadDescription(Description(contents)) == Done(Kinds(contents), []);
  }

  /** Whether a parameter needs a blob. */
  predicate NeedsBlob(env: Env, p: Param) {
    p.Binary? || (p.Text? && env.encode(p.text).Some? && |env.encode(p.text).value| > 32767)
  }

  /** What is wrong with a parameter, if `k` blobs were stored before: a text that cannot be
      encoded, or a blob that cannot be stored. */
  function Problem(env: Env, p: Param, k: nat): Option<FbError> {
    if p.Text? && env.encode(p.text).None? then Some(InvalidText)
    else if NeedsBlob(env, p) && env.store(k).Err? then Some(env.store(k).error)
    else None
  }

  /** What is wrong with the first parameter with which something is; every one before it that
      needs a blob has stored one. */
  function FirstProblem(env: Env, params: seq<Param>, k: nat): Option<FbError>
    decreases |params|
  {
    if params == [] then None
    else if Problem(env, params[0], k).Some? then Problem(env, params[0], k)
    else FirstProblem(env, params[1..], if NeedsBlob(env, params[0]) then k + 1 else k)
  }

  /** The conversion fails exactly when something is wrong with a parameter, and the first one
      decides. */
  lemma {:induction false} ContentsOkIff(env: Env, params: seq<Param>, k: nat)
    requires ParamsFit(params)
    ensures Contents(env, params, k).Ok? <==> FirstProblem(env, params, k).None?
    ensures Contents(env, params, k).Err? ==> FirstProblem(env, params, k) == Some(Contents(env, params, k).error)
    decreases |params|
  {
    hide Problem, ContentOf, Contents, NeedsBlob, Content.Fits;
    ContentsCases(env, params, k);
    if params != [] {
      ProblemIs(env, params[0], k);
      ContentsOkIff(env, params[1..], if NeedsBlob(env, params[0]) then k + 1 else k);
    }
  }

  lemma ContentsCases(env: Env, params: seq<Param>, k: nat)
    requires ParamsFit(params)
    ensures params == [] ==> Contents(env, params, k).Ok?
    ensures params != [] && ContentOf(env, params[0], k).Err? ==>
              Contents(env, params, k) == Err(ContentOf(env, params[0], k).error)
    ensures params != [] && ContentOf(env, params[0], k).Ok? ==>
              var rest := Contents(env, params[1..],
                                   if ContentOf(env, params[0], k).value.BlobId? then k + 1 else k);
              && (Contents(env, params, k).Ok? <==> rest.Ok?)
              && (rest.Err? ==> Contents(env, params, k).error == rest.error)
  {
    hide ContentOf, Content.Fits;
  }

  lemma ProblemIs(env: Env, p: Param, k: nat)
    requires p.Fits()
    ensures match ContentOf(env, p, k)
            case Ok(c) => Problem(env, p, k).None? && (c.BlobId? <==> NeedsBlob(env, p))
            case Err(e) => Problem(env, p, k) == Some(e)
  {
  }

  /** The loop of `params_to_blr`. */
  method ConvertParams(env: Env, params: seq<Param>)
    returns (r: Result<(seq<byte>, seq<byte>), FbError>, stored: seq<seq<byte>>)
    requires ParamsFit(params)
    ensures r == match Contents(env, params, 0)
                 case Ok(contents) => Ok((Description(contents), Message(contents, env.v13)))
                 case Err(e) => Err(e)
    ensures r.Ok? ==> stored == Blobs(env, params)
  {
    hide ContentOf, Contents, After, BlobOf, Blobs, Content.Kind, Content.Bytes, Field.Bytes, Bitmap, Content.Fits,
         U32LeBytes, U16LeBytes, FieldCount;
    var blr := new ByteBuf();
    var values := new ByteBuf();
    blr.PutSlice([VERSION5, BEGIN, MESSAGE, 0]);
    blr.PutSlice(U16LeBytes(FieldCount(|params|)));
    var nulls := seq(|params|, i requires 0 <= i < |params| => params[i].Null?);
    if env.v13 {
      PutNullBitmap(values, nulls);
    }
    stored := [];
    ghost var done: seq<Content> := [];
    ghost var header, bitmap := blr.data, values.data;
    NothingWritten(env, params, header, bitmap);
    for i := 0 to |params|
      invariant |done| == i
      invariant Written(blr.data, values.data, header, bitmap, done, env.v13)
      invariant Contents(env, params, 0) == After(done, Contents(env, params[i..], |stored|))
      invariant Blobs(env, params) == stored + Blobs(env, params[i..])
    {
      assert params[i..][0] == params[i] && params[i..][1..] == params[i + 1..];
      ContentsEnd(env, params[i..], |stored|, done);
      var next := PutParam(env, blr, values, params[i], stored);
      if next.Err? {
        return Err(next.error), stored;
      }
      ghost var c := ContentOf(env, params[i], |stored|).value;
      WrittenNext(header, bitmap, done, c, env.v13);
      ContentsNext(env, params[i..], stored, done);
      stored := next.value;
      if !env.v13 {
        values.PutSlice(U32LeBytes(OfI32(if params[i].Null? then -1 else 0)));
      }
      blr.PutSlice([SHORT, 0]);
      done := done + [c];
    }
    ContentsEnd(env, params[|params|..], |stored|, done);
    assert stored + [] == stored;
    assert Contents(env, params, 0) == Ok(done);
    assert nulls == Absences(done);
    assert header == [VERSION5, BEGIN, MESSAGE, 0] + U16LeBytes(FieldCount(|done|));
    assert bitmap == if env.v13 then Bitmap(nulls) else [];
    blr.PutSlice([END, EOC]);
    return Ok((blr.data, values.data)), stored;
  }

  /** `params_to_blr`; the data of the blobs it stored is handed back beside the message. It fails
      when something is wrong with a parameter; otherwise, with fewer than 32768 parameters, a
      server that follows the description finds in the message what the parameters are. */
  method ParamsToBlr(env: Env, params: seq<Param>)
    returns (r: Result<(seq<byte>, seq<byte>), FbError>, stored: seq<seq<byte>>)
    requires ParamsFit(params)
    ensures r == match Contents(env, params, 0)
                 case Ok(contents) => Ok((Description(contents), Message(contents, env.v13)))
                 case Err(e) => Err(e)
    ensures r.Ok? ==> stored == Blobs(env, params)
    ensures r.Ok? && |params| < 0x8000 ==> Understood(env, params, r.value.0, r.value.1, stored)
    ensures r.Ok? <==> FirstProblem(env, params, 0).None?
    ensures r.Err? ==> FirstProblem(env, params, 0) == Some(r.error)
  {
    hide Contents, Description, Message, Blobs, Understood, FirstProblem;
    r, stored := ConvertParams(env, params);
    ContentsOkIff(env, params, 0);
    if r.Ok? && |params| < 0x8000 {
      ParamsArrive(env, params);
    }
  }
}
