/** The datagrams of the old loop: how each message is written by its sender and read by its receiver. */
module WireFormat {
  import opened Basics
  import opened SerialFormat
  import opened Codecs
  import opened Serializer
  import opened NodeModel

  const VERSION: Byte := 1
  const CMD_DATA: Byte := 2
  const CMD_HI: Byte := 3
  const CMD_QUERY: Byte := 10
  const CMD_REPLY: Byte := 11
  const KNOWN_COMMANDS: set<Byte> := {0, 1, 2, 3, 4, 5, 10, 11}
  const SEMICOLON: Byte := 59

  // ---------------------------------------------------------------- the formats, written

  function Command(m: Msg): Byte {
    match m
    case Query(_, _) => CMD_QUERY
    case Reply(_, _, _, _) => CMD_REPLY
    case Hi(_) => CMD_HI
    case Data(_, _, _, _, _) => CMD_DATA
  }

  function QueryBody(goal: Addr, ttl: Byte): Bytes {
    goal.octets + [SEMICOLON, ttl, SEMICOLON]
  }

  function ReplyBody(ttl: Byte, cost: Byte, goal: Addr, pk: Pubkey): Result<Bytes> {
    var key :- EncVarstring(pk.serial);
    Success([ttl, SEMICOLON, cost, SEMICOLON] + (goal.octets + ([SEMICOLON] + (key + [SEMICOLON]))))
  }

  function HiBody(cred: Credentials): Result<Bytes> {
    var idc :- EncVarstring(cred.idc);
    var idi :- EncVarstring(cred.idi.serial);
    var sig :- EncVarstring(cred.sig);
    Success(idc + (idi + sig))
  }

  function DataBody(src: Addr, dst: Addr, ttl: Byte, nonce: Octets24, blob: Bytes): Result<Bytes> {
    var b :- EncVarstring(blob);
    Success(src.octets + (dst.octets + ([ttl] + (nonce + b))))
  }

  function Body(m: Msg): Result<Bytes> {
    match m
    case Query(goal, ttl) => Success(QueryBody(goal, ttl))
    case Reply(ttl, cost, goal, pk) => ReplyBody(ttl, cost, goal, pk)
    case Hi(cred) => HiBody(cred)
    case Data(src, dst, ttl, nonce, blob) => DataBody(src, dst, ttl, nonce, blob)
  }

  function Encode(m: Msg): Result<Bytes> {
    var body :- Body(m);
    Success([VERSION, Command(m)] + body)
  }

  // ---------------------------------------------------------------- the formats, read

  /** The first semicolon at `from` or later, or the length of `b`. */
  function FindSemicolon(b: Bytes, from: nat): (pos: nat)
    requires from <= |b|
    ensures from <= pos <= |b|
    ensures forall i :: from <= i < pos ==> b[i] != SEMICOLON
    ensures pos < |b| ==> b[pos] == SEMICOLON
    decreases |b| - from
  {
    if from == |b| || b[from] == SEMICOLON then from else FindSemicolon(b, from + 1)
  }

  /** The search starts at index 2 of the body, whose two-octet header is already gone. */
  function ReadQuery(body: Bytes): Result<Msg> {
    if |body| < 2 then Failure(BadFormat)
    else
      var pos := FindSemicolon(body, 2);
      if pos == |body| || pos != 16 then Failure(BadFormat)
      else if |body| < 18 then Failure(OutOfRange)
      else Success(Query(Addr(body[..16]), body[17]))
  }

  function TakeByte(b: Bytes): Result<(Byte, Bytes)> {
    CharCodec().dec(b)
  }

  function SkipByte(c: Byte, b: Bytes): Result<Bytes> {
    if b == [] then Failure(ReadPastEnd) else if b[0] != c then Failure(WrongDelimiter) else Success(b[1..])
  }

  function ReadReply(b: Bytes): Result<Msg> {
    var (ttl, b1) :- TakeByte(b);
    var b2 :- SkipByte(SEMICOLON, b1);
    var (cost, b3) :- TakeByte(b2);
    var b4 :- SkipByte(SEMICOLON, b3);
    ReadReplyGoal(ttl, cost, b4)
  }

  function ReadReplyGoal(ttl: Byte, cost: Byte, b: Bytes): Result<Msg> {
    var (goal, b1) :- TakeBytes(16, b);
    var b2 :- SkipByte(SEMICOLON, b1);
    var (key, b3) :- DecVarstring(b2);
    var _ :- SkipByte(SEMICOLON, b3);
    Success(Reply(ttl, cost, Addr(goal), Pubkey(key)))
  }

  function ReadHi(b: Bytes): Result<Msg> {
    var (idc, b1) :- DecVarstring(b);
    var (idi, b2) :- DecVarstring(b1);
    var (sig, _) :- DecVarstring(b2);
    Success(Hi(Credentials(Pubkey(idi), idc, sig)))
  }

  function ReadData(b: Bytes): Result<Msg> {
    var (src, b1) :- TakeBytes(16, b);
    var (dst, b2) :- TakeBytes(16, b1);
    var (ttl, b3) :- TakeByte(b2);
    ReadDataBlob(Addr(src), Addr(dst), ttl, b3)
  }

  function ReadDataBlob(src: Addr, dst: Addr, ttl: Byte, b: Bytes): Result<Msg> {
    var (nonce, b1) :- TakeBytes(24, b);
    var (blob, _) :- DecVarstring(b1);
    Success(Data(src, dst, ttl, nonce, blob))
  }

  /** A newer version and an unknown command are refused; the known commands without a handler are skipped. */
  function Decode(d: Bytes): Result<Msg> {
    if |d| < 2 || d[0] > VERSION || d[1] !in KNOWN_COMMANDS then Failure(InvalidInput)
    else if d[1] == CMD_DATA then ReadData(d[2..])
    else if d[1] == CMD_HI then ReadHi(d[2..])
    else if d[1] == CMD_QUERY then ReadQuery(d[2..])
    else if d[1] == CMD_REPLY then ReadReply(d[2..])
    else Failure(InvalidInput)
  }

  // ---------------------------------------------------------------- what is sent is what is received

  /** The query reader takes an address whose octets 2 to 15 hold no semicolon, and a TTL octet after it; and nothing else. */
  lemma QueryReaderIsExact(body: Bytes)
    ensures ReadQuery(body).Success? <==>
              && |body| >= 18
              && body[16] == SEMICOLON
              && forall i :: 2 <= i < 16 ==> body[i] != SEMICOLON
    ensures ReadQuery(body).Success? ==>
              exists goal, ttl :: ReadQuery(body) == Success(Query(goal, ttl)) && QueryBody(goal, ttl)[..18] == body[..18]
  {
    if |body| >= 2 {
      var pos := FindSemicolon(body, 2);
      if ReadQuery(body).Success? {
        var goal, ttl := Addr(body[..16]), body[17];
        assert QueryBody(goal, ttl)[..18] == body[..18] by {
          forall i | 0 <= i < 18 ensures QueryBody(goal, ttl)[i] == body[i] {}
        }
      } else if |body| >= 18 && body[16] == SEMICOLON {
        assert pos < 16 && body[pos] == SEMICOLON;
      }
    }
  }

  /** The messages that their own reader takes. */
  predicate Readable(m: Msg) {
    match m
    case Query(goal, _) => forall i :: 2 <= i < 16 ==> goal.octets[i] != SEMICOLON
    case Reply(_, _, _, pk) => |pk.serial| <= SANE_MAX_SIZE
    case Hi(cred) => |cred.idc| <= SANE_MAX_SIZE && |cred.idi.serial| <= SANE_MAX_SIZE && |cred.sig| <= SANE_MAX_SIZE
    case Data(_, _, _, _, blob) => |blob| <= SANE_MAX_SIZE
  }

  lemma QueryReadsBack(goal: Addr, ttl: Byte)
    ensures Readable(Query(goal, ttl)) ==> ReadQuery(QueryBody(goal, ttl)) == Success(Query(goal, ttl))
    ensures !Readable(Query(goal, ttl)) ==> ReadQuery(QueryBody(goal, ttl)).Failure?
  {
    var body := QueryBody(goal, ttl);
    QueryReaderIsExact(body);
    assert body[..16] == goal.octets && body[16] == SEMICOLON && body[17] == ttl;
    assert forall i :: 2 <= i < 16 ==> body[i] == goal.octets[i];
  }

  lemma TakeFront(a: Bytes, b: Bytes)
    ensures TakeBytes(|a|, a + b) == Success((a, b))
  {
    assert (a + b)[..|a|] == a && (a + b)[|a|..] == b;
  }

  lemma ReplyReadsBack(ttl: Byte, cost: Byte, goal: Addr, pk: Pubkey)
    requires ReplyBody(ttl, cost, goal, pk).Success?
    ensures |pk.serial| <= SANE_MAX_SIZE ==>
              ReadReply(ReplyBody(ttl, cost, goal, pk).value) == Success(Reply(ttl, cost, goal, pk))
    ensures |pk.serial| > SANE_MAX_SIZE ==> ReadReply(ReplyBody(ttl, cost, goal, pk).value).Failure?
  {
    hide EncVarstring, DecVarstring;
    var key := EncVarstring(pk.serial).value;
    var b4 := goal.octets + ([SEMICOLON] + (key + [SEMICOLON]));
    var b := [ttl, SEMICOLON, cost, SEMICOLON] + b4;
    assert b[1..][1..][1..][1..] == b4;
    assert ReadReply(b) == ReadReplyGoal(ttl, cost, b4);
    TakeFront(goal.octets, [SEMICOLON] + (key + [SEMICOLON]));
    assert ([SEMICOLON] + (key + [SEMICOLON]))[1..] == key + [SEMICOLON];
    VarstringReadsBack(pk.serial, [SEMICOLON]);
  }

  lemma HiReadsBack(cred: Credentials)
    requires HiBody(cred).Success?
    ensures Readable(Hi(cred)) ==> ReadHi(HiBody(cred).value) == Success(Hi(cred))
    ensures !Readable(Hi(cred)) ==> ReadHi(HiBody(cred).value).Failure?
  {
    hide EncVarstring, DecVarstring;
    var idi, sig := EncVarstring(cred.idi.serial).value, EncVarstring(cred.sig).value;
    VarstringReadsBack(cred.idc, idi + sig);
    VarstringReadsBack(cred.idi.serial, sig);
    VarstringReadsBack(cred.sig, []);
    assert sig + [] == sig;
  }

  lemma DataReadsBack(src: Addr, dst: Addr, ttl: Byte, nonce: Octets24, blob: Bytes)
    requires DataBody(src, dst, ttl, nonce, blob).Success?
    ensures |blob| <= SANE_MAX_SIZE ==>
              ReadData(DataBody(src, dst, ttl, nonce, blob).value) == Success(Data(src, dst, ttl, nonce, blob))
    ensures |blob| > SANE_MAX_SIZE ==> ReadData(DataBody(src, dst, ttl, nonce, blob).value).Failure?
  {
    hide EncVarstring, DecVarstring;
    var b := EncVarstring(blob).value;
    TakeFront(src.octets, dst.octets + ([ttl] + (nonce + b)));
    TakeFront(dst.octets, [ttl] + (nonce + b));
    assert ([ttl] + (nonce + b))[1..] == nonce + b;
    TakeFront(nonce, b);
    VarstringReadsBack(blob, []);
    assert b + [] == b;
  }

  /**
   * A datagram is read as the very message that was written, exactly when the message is readable;
   * a message that is not is refused, never mistaken for another.
   */
  lemma WhatIsSentIsReceived(m: Msg)
    requires Encode(m).Success?
    ensures Readable(m) ==> Decode(Encode(m).value) == Success(m)
    ensures !Readable(m) ==> Decode(Encode(m).value).Failure?
  {
    hide QueryBody, ReplyBody, HiBody, DataBody, ReadQuery, ReadReply, ReadHi, ReadData;
    var body := Body(m).value;
    assert Encode(m).value[2..] == body;
    match m
    case Query(goal, ttl) => QueryReadsBack(goal, ttl);
    case Reply(ttl, cost, goal, pk) => ReplyReadsBack(ttl, cost, goal, pk);
    case Hi(cred) => HiReadsBack(cred);
    case Data(src, dst, ttl, nonce, blob) => DataReadsBack(src, dst, ttl, nonce, blob);
  }

  /** A readable message can be written. */
  lemma ReadableEncodes(m: Msg)
    requires Readable(m)
    ensures Encode(m).Success?
  {
    hide EncVarstring;
    match m
    case Query(_, _) =>
    case Reply(_, _, _, pk) => VarstringEncodes(pk.serial);
    case Hi(cred) => VarstringEncodes(cred.idc); VarstringEncodes(cred.idi.serial); VarstringEncodes(cred.sig);
    case Data(_, _, _, _, blob) => VarstringEncodes(blob);
  }

  // ---------------------------------------------------------------- the octets on the wire

  /** Every datagram begins with version 1 and its command. */
  lemma HeaderOctets(m: Msg)
    requires Encode(m).Success?
    ensures var d := Encode(m).value;
            && |d| >= 2 && d[0] == 1
            && d[1] == (if m.Data? then 2 else if m.Hi? then 3 else if m.Query? then 10 else 11)
  {
    hide Body;
  }

  /** A datagram of any newer version, or of a command other than these four, is refused. */
  lemma OthersRefused(d: Bytes)
    requires |d| < 2 || d[0] > 1 || d[1] !in {2, 3, 10, 11}
    ensures Decode(d).Failure?
  {
    hide ReadData, ReadHi, ReadQuery, ReadReply;
  }

  /** Which octet of a query, of a reply and of tunneled data is what. */
  lemma FieldOctets(m: Msg)
    requires Encode(m).Success?
    ensures var d := Encode(m).value;
            match m
            case Query(goal, ttl) => |d| == 21 && d[2..18] == goal.octets && d[18] == 59 && d[19] == ttl && d[20] == 59
            case Reply(ttl, cost, goal, pk) =>
              && |d| >= 24 && d[2] == ttl && d[3] == 59 && d[4] == cost && d[5] == 59 && d[6..22] == goal.octets && d[22] == 59
              && Success(d[23..|d| - 1]) == EncVarstring(pk.serial) && d[|d| - 1] == 59
            case Data(src, dst, ttl, nonce, blob) =>
              && |d| >= 59 && d[2..18] == src.octets && d[18..34] == dst.octets && d[34] == ttl && d[35..59] == nonce
              && Success(d[59..]) == EncVarstring(blob)
            case Hi(cred) =>
              && EncVarstring(cred.idc).Success? && EncVarstring(cred.idi.serial).Success? && EncVarstring(cred.sig).Success?
              && d[2..] == EncVarstring(cred.idc).value + EncVarstring(cred.idi.serial).value + EncVarstring(cred.sig).value
  {
    hide EncVarstring;
    match m
    case Query(_, _) =>
    case Reply(ttl, cost, goal, pk) => ReplyOctets(ttl, cost, goal, pk);
    case Data(src, dst, ttl, nonce, blob) => DataOctets(src, dst, ttl, nonce, blob);
    case Hi(cred) =>
      assert Encode(m).value[2..] == HiBody(cred).value;
      var idc, idi, sig := EncVarstring(cred.idc).value, EncVarstring(cred.idi.serial).value, EncVarstring(cred.sig).value;
      assert idc + (idi + sig) == idc + idi + sig;
  }

  lemma ReplyOctets(ttl: Byte, cost: Byte, goal: Addr, pk: Pubkey)
    requires Encode(Reply(ttl, cost, goal, pk)).Success?
    ensures var d := Encode(Reply(ttl, cost, goal, pk)).value;
            && |d| >= 24 && d[2] == ttl && d[3] == 59 && d[4] == cost && d[5] == 59 && d[6..22] == goal.octets && d[22] == 59
            && Success(d[23..|d| - 1]) == EncVarstring(pk.serial) && d[|d| - 1] == 59
  {
    hide EncVarstring;
    var d, key := Encode(Reply(ttl, cost, goal, pk)).value, EncVarstring(pk.serial).value;
    assert d == [VERSION, CMD_REPLY, ttl, SEMICOLON, cost, SEMICOLON] + goal.octets + [SEMICOLON] + key + [SEMICOLON];
    hide ReplyBody, Encode;
    assert d[6..22] == goal.octets && d[23..|d| - 1] == key;
  }

  lemma DataOctets(src: Addr, dst: Addr, ttl: Byte, nonce: Octets24, blob: Bytes)
    requires Encode(Data(src, dst, ttl, nonce, blob)).Success?
    ensures var d := Encode(Data(src, dst, ttl, nonce, blob)).value;
            && |d| >= 59 && d[2..18] == src.octets && d[18..34] == dst.octets && d[34] == ttl && d[35..59] == nonce
            && Success(d[59..]) == EncVarstring(blob)
  {
    hide EncVarstring;
    var d, b := Encode(Data(src, dst, ttl, nonce, blob)).value, EncVarstring(blob).value;
    assert d == [VERSION, CMD_DATA] + src.octets + dst.octets + [ttl] + nonce + b;
    hide DataBody, Encode;
    assert d[2..18] == src.octets && d[18..34] == dst.octets && d[35..59] == nonce && d[59..] == b;
  }

  // ---------------------------------------------------------------- the code that writes

  /** The command form: version, command and a body. */
  method SendDataUdpCmd(cmd: Byte, bin: Bytes) returns (raw: Bytes)
    ensures raw == [VERSION, cmd] + bin
  {
    raw := [];
    raw := raw + [VERSION];
    raw := raw + [cmd];
    raw := raw + bin;
  }

  method WriteQuery(goal: Addr, ttl: Byte) returns (raw: Bytes)
    ensures Encode(Query(goal, ttl)) == Success(raw)
  {
    var data: Bytes := goal.octets;
    data := data + [SEMICOLON];
    data := data + [ttl];
    data := data + [SEMICOLON];
    assert data == QueryBody(goal, ttl);
    raw := SendDataUdpCmd(CMD_QUERY, data);
  }

  method WriteReply(ttl: Byte, cost: Byte, goal: Addr, pk: Pubkey) returns (r: Result<Bytes>)
    requires |pk.serial| < Pow256(8)
    ensures r == Encode(Reply(ttl, cost, goal, pk))
  {
    hide EncVarstring, Pow256;
    var gen := new Generator();
    gen.PushByteU(ttl);
    gen.PushByteU(SEMICOLON);
    gen.PushByteU(cost);
    gen.PushByteU(SEMICOLON);
    var failed := gen.PushBytesN(16, goal.octets);
    gen.PushByteU(SEMICOLON);
    failed := gen.PushVarstring(pk.serial);
    if failed.Some? {
      return Failure(failed.value);
    }
    ghost var key := EncVarstring(pk.serial).value;
    gen.PushByteU(SEMICOLON);
    assert gen.str == [ttl, SEMICOLON, cost, SEMICOLON] + (goal.octets + ([SEMICOLON] + (key + [SEMICOLON])));
    var raw := SendDataUdpCmd(CMD_REPLY, gen.str);
    return Success(raw);
  }

  method WriteHi(cred: Credentials) returns (r: Result<Bytes>)
    requires |cred.idc| < Pow256(8) && |cred.idi.serial| < Pow256(8) && |cred.sig| < Pow256(8)
    ensures r == Encode(Hi(cred))
  {
    hide EncVarstring, Pow256;
    var gen := new Generator();
    var failed := gen.PushVarstring(cred.idc);
    if failed.Some? {
      return Failure(failed.value);
    }
    failed := gen.PushVarstring(cred.idi.serial);
    if failed.Some? {
      return Failure(failed.value);
    }
    failed := gen.PushVarstring(cred.sig);
    if failed.Some? {
      return Failure(failed.value);
    }
    assert Success(gen.str) == HiBody(cred) by {
      var idc, idi, sig := EncVarstring(cred.idc).value, EncVarstring(cred.idi.serial).value, EncVarstring(cred.sig).value;
      assert gen.str == [] + idc + idi + sig == idc + (idi + sig);
    }
    var raw := SendDataUdpCmd(CMD_HI, gen.str);
    return Success(raw);
  }

  lemma DataEncodes(src: Addr, dst: Addr, ttl: Byte, nonce: Octets24, blob: Bytes)
    ensures Encode(Data(src, dst, ttl, nonce, blob)) ==
            match EncVarstring(blob)
            case Failure(e) => Failure(e)
            case Success(b) => Success([VERSION, CMD_DATA] + (src.octets + (dst.octets + ([ttl] + (nonce + b)))))
  {
    hide EncVarstring;
  }

  lemma DataRegrouped(src: Bytes, dst: Bytes, ttl: Byte, nonce: Bytes, b: Bytes)
    ensures [] + [VERSION] + [CMD_DATA] + src + dst + [ttl] + nonce + b
         == [VERSION, CMD_DATA] + (src + (dst + ([ttl] + (nonce + b))))
  {}

  method SendDataUdp(src: Addr, dst: Addr, ttl: Byte, nonce: Octets24, blob: Bytes) returns (r: Result<Bytes>)
    requires |blob| < Pow256(8)
    ensures r == Encode(Data(src, dst, ttl, nonce, blob))
  {
    hide EncVarstring, Pow256, Encode;
    var gen := new Generator();
    gen.PushByteU(VERSION);
    gen.PushByteU(CMD_DATA);
    var failed := gen.PushBytesN(16, src.octets);
    failed := gen.PushBytesN(16, dst.octets);
    gen.PushByteU(ttl);
    failed := gen.PushBytesN(24, nonce);
    failed := gen.PushVarstring(blob);
    if failed.Some? {
      DataEncodes(src, dst, ttl, nonce, blob);
      return Failure(failed.value);
    }
    ghost var b := EncVarstring(blob).value;
    DataRegrouped(src.octets, dst.octets, ttl, nonce, b);
    DataEncodes(src, dst, ttl, nonce, blob);
    return Success(gen.str);
  }

  // ---------------------------------------------------------------- the code that reads

  method ParseData(buf: Bytes) returns (r: Result<Msg>)
    requires |buf| >= 2
    ensures r == ReadData(buf[2..])
  {
    hide DecVarstring;
    var parser := new Parser(buf);
    var failed := parser.SkipBytesN(2);
    var src :- parser.PopBytesN(16);
    var dst :- parser.PopBytesN(16);
    var ttl :- parser.PopByteU();
    assert ReadData(buf[2..]) == ReadDataBlob(Addr(src), Addr(dst), ttl, parser.Rest());
    var nonce :- parser.PopBytesN(24);
    var blob :- parser.PopVarstring();
    return Success(Data(Addr(src), Addr(dst), ttl, nonce, blob));
  }

  method ParseHi(buf: Bytes) returns (r: Result<Msg>)
    requires |buf| >= 2
    ensures r == ReadHi(buf[2..])
  {
    hide DecVarstring;
    var parser := new Parser(buf[2..]);
    var idc :- parser.PopVarstring();
    var idi :- parser.PopVarstring();
    var sig :- parser.PopVarstring();
    return Success(Hi(Credentials(Pubkey(idi), idc, sig)));
  }

  method ParseReply(buf: Bytes) returns (r: Result<Msg>)
    requires |buf| >= 2
    ensures r == ReadReply(buf[2..])
  {
    hide DecVarstring;
    var parser := new Parser(buf[2..]);
    var ttl :- parser.PopByteU();
    var failed := parser.PopByteSkip(SEMICOLON);
    if failed.Some? { return Failure(failed.value); }
    var cost :- parser.PopByteU();
    failed := parser.PopByteSkip(SEMICOLON);
    if failed.Some? { return Failure(failed.value); }
    assert ReadReply(buf[2..]) == ReadReplyGoal(ttl, cost, parser.Rest());
    var goal :- parser.PopBytesN(16);
    failed := parser.PopByteSkip(SEMICOLON);
    if failed.Some? { return Failure(failed.value); }
    var key :- parser.PopVarstring();
    failed := parser.PopByteSkip(SEMICOLON);
    if failed.Some? { return Failure(failed.value); }
    return Success(Reply(ttl, cost, Addr(goal), Pubkey(key)));
  }

  /** Version and command first, then the body by its own reader. */
  method ParseDatagram(buf: Bytes) returns (r: Result<Msg>)
    ensures r == Decode(buf)
  {
    if !(|buf| >= 2) || VERSION < buf[0] || buf[1] !in KNOWN_COMMANDS {
      return Failure(InvalidInput);
    }
    if buf[1] == CMD_DATA {
      r := ParseData(buf);
    } else if buf[1] == CMD_HI {
      r := ParseHi(buf);
    } else if buf[1] == CMD_QUERY {
      r := ReadQuery(buf[2..]);
    } else if buf[1] == CMD_REPLY {
      r := ParseReply(buf);
    } else {
      r := Failure(InvalidInput);
    }
  }
}
