/**
  The text of AT commands (set_params and build_cmd of network/wifi/at_parser.c), and a
  reader that recovers the parameters from it.
 */
module CommandText {
  import opened Machine
  import opened DecimalText

  type Int32 = n: int | -0x8000_0000 <= n < 0x8000_0000

  /** A parameter of format 'd' or 's'. */
  datatype Param = Num(n: Int32) | Str(s: seq<Byte>)

  const QUOTE: Byte := 34
  const COMMA: Byte := 44
  const BACKSLASH: Byte := 92
  const MINUS: Byte := 45

  predicate NeedsEscape(b: Byte) {
    b == QUOTE || b == COMMA || b == BACKSLASH
  }

  function Abs(n: int): nat {
    if n < 0 then -n else n
  }

  /** itoa in base 10. */
  function Itoa(n: Int32): seq<Byte> {
    if n < 0 then [MINUS] + Decimal(Abs(n)) else Decimal(Abs(n))
  }

  function Escaped(s: seq<Byte>): seq<Byte> {
    if s == [] then []
    else (if NeedsEscape(s[0]) then [BACKSLASH, s[0]] else [s[0]]) + Escaped(s[1..])
  }

  function ParamText(p: Param): seq<Byte> {
    match p
    case Num(n) => Itoa(n)
    case Str(s) => [QUOTE] + (Escaped(s) + [QUOTE])
  }

  /** The parameters, separated by commas. */
  function ParamsText(ps: seq<Param>): seq<Byte> {
    if ps == [] then []
    else if |ps| == 1 then ParamText(ps[0])
    else ParamText(ps[0]) + ([COMMA] + ParamsText(ps[1..]))
  }

  // ----- The reader -----

  /** The rest of a quoted string: its bytes and what follows the closing quote. */
  function ReadString(t: seq<Byte>): Option<(seq<Byte>, seq<Byte>)>
    decreases |t|
  {
    if t == [] then None
    else if t[0] == QUOTE then Some(([], t[1..]))
    else if t[0] == BACKSLASH then
      if |t| == 1 then None
      else
        match ReadString(t[2..])
        case None => None
        case Some((s, rest)) => Some(([t[1]] + s, rest))
    else
      match ReadString(t[1..])
      case None => None
      case Some((s, rest)) => Some(([t[0]] + s, rest))
  }

  function ReadNumber(t: seq<Byte>): Option<(int, seq<Byte>)> {
    if t == [] then None
    else if t[0] == MINUS then
      if |t| == 1 || !IsDigit(t[1]) then None
      else var (n, rest) := ReadDigits(t[1..], 0); Some((0 - n, rest))
    else if !IsDigit(t[0]) then None
    else var (n, rest) := ReadDigits(t, 0); Some((n, rest))
  }

  function ReadParam(t: seq<Byte>): Option<(Param, seq<Byte>)> {
    if t != [] && t[0] == QUOTE then
      match ReadString(t[1..])
      case None => None
      case Some((s, rest)) => Some((Str(s), rest))
    else
      match ReadNumber(t)
      case None => None
      case Some((n, rest)) =>
        if -0x8000_0000 <= n < 0x8000_0000 then Some((Num(n), rest)) else None
  }

  function ReadParams(t: seq<Byte>): Option<seq<Param>>
    decreases |t|
  {
    if t == [] then Some([])
    else
      match ReadParam(t)
      case None => None
      case Some((p, rest)) =>
        if rest == [] then Some([p])
        else if rest[0] != COMMA || |rest| > |t| || |rest| == 1 then None
        else
          match ReadParams(rest[1..])
          case None => None
          case Some(ps) => Some([p] + ps)
  }

  // ----- The text determines the parameters -----

  lemma ReadOne(b: Byte, more: seq<Byte>, s: seq<Byte>, rest: seq<Byte>)
    requires ReadString(more) == Some((s, rest))
    ensures ReadString((if NeedsEscape(b) then [BACKSLASH, b] else [b]) + more) == Some(([b] + s, rest))
  {
  }

  lemma {:induction false} ReadEscaped(s: seq<Byte>, rest: seq<Byte>)
    ensures ReadString(Escaped(s) + ([QUOTE] + rest)) == Some((s, rest))
    decreases |s|, 1
  {
    var tail := [QUOTE] + rest;
    if s == [] {
      assert Escaped(s) + tail == tail && tail[1..] == rest;
    } else {
      ReadEscapedNext(s, rest);
    }
  }

  lemma {:induction false} ReadEscapedNext(s: seq<Byte>, rest: seq<Byte>)
    requires s != []
    ensures ReadString(Escaped(s) + ([QUOTE] + rest)) == Some((s, rest))
    decreases |s|, 0
  {
    hide ReadString, NeedsEscape, Escaped;
    ReadEscaped(s[1..], rest);
    var tail := [QUOTE] + rest;
    var more := Escaped(s[1..]) + tail;
    ReadOne(s[0], more, s[1..], rest);
    var first := if NeedsEscape(s[0]) then [BACKSLASH, s[0]] else [s[0]];
    EscapedFirst(s);
    assert first + Escaped(s[1..]) + tail == first + more;
    assert [s[0]] + s[1..] == s;
  }

  lemma EscapedFirst(s: seq<Byte>)
    requires s != []
    ensures Escaped(s) == (if NeedsEscape(s[0]) then [BACKSLASH, s[0]] else [s[0]]) + Escaped(s[1..])
  {
  }

  /** What follows a parameter: nothing, or a comma. */
  predicate Delimited(rest: seq<Byte>) {
    rest == [] || rest[0] == COMMA
  }

  lemma ReadParamText(p: Param, rest: seq<Byte>)
    requires Delimited(rest)
    ensures ReadParam(ParamText(p) + rest) == Some((p, rest)) && |ParamText(p)| > 0
  {
    match p
    case Str(s) =>
      var t := ParamText(p) + rest;
      assert t[1..] == Escaped(s) + ([QUOTE] + rest);
      ReadEscaped(s, rest);
    case Num(n) => ReadItoa(n, rest);
  }

  lemma ReadItoa(n: Int32, rest: seq<Byte>)
    requires Delimited(rest)
    ensures |Itoa(n)| > 0 && Itoa(n)[0] != QUOTE
    ensures ReadNumber(Itoa(n) + rest) == Some((n as int, rest))
  {
    hide Decimal, ReadDigits;
    var digits := Decimal(Abs(n));
    ReadDecimal(Abs(n), rest);
    DelimiterStops(rest, Abs(n));
    var t := Itoa(n) + rest;
    if n < 0 {
      assert t[1..] == digits + rest;
    } else {
      assert t == digits + rest;
    }
  }

  lemma DelimiterStops(rest: seq<Byte>, n: nat)
    requires Delimited(rest)
    ensures ReadDigits(rest, n) == (n, rest)
  {
  }

  lemma ParamTextNonEmpty(ps: seq<Param>)
    requires ps != []
    ensures |ParamsText(ps)| > 0
  {
  }

  /** Every parameter list is recovered from its text, whatever bytes its strings hold. */
  lemma {:induction false} ParamsRoundTrip(ps: seq<Param>)
    ensures ReadParams(ParamsText(ps)) == Some(ps)
    decreases |ps|
  {
    hide ReadParam, ParamText;
    if |ps| == 1 {
      ReadParamText(ps[0], []);
      assert ParamText(ps[0]) + [] == ParamText(ps[0]) && ps == [ps[0]];
    } else if |ps| > 1 {
      var more := ParamsText(ps[1..]);
      var rest := [COMMA] + more;
      ParamsRoundTrip(ps[1..]);
      ParamTextNonEmpty(ps[1..]);
      ReadParamText(ps[0], rest);
      assert rest[1..] == more;
      assert [ps[0]] + ps[1..] == ps;
    }
  }

  // ----- Length -----

  /** How many bytes of the string get a backslash. */
  function Escapes(s: seq<Byte>): (n: nat)
    ensures n <= |s|
  {
    if s == [] then 0 else (if NeedsEscape(s[0]) then 1 else 0) + Escapes(s[1..])
  }

  lemma {:induction false} EscapedLength(s: seq<Byte>)
    ensures |Escaped(s)| == |s| + Escapes(s)
  {
    if s != [] {
      EscapedLength(s[1..]);
    }
  }

  /** The bytes of one parameter: quotes, characters and backslashes of a string, sign and digits of a number. */
  function Size(p: Param): nat {
    match p
    case Num(n) => (if n < 0 then 1 else 0) + |Decimal(Abs(n))|
    case Str(s) => |s| + Escapes(s) + 2
  }

  /** The bytes of all parameters, with one separator between each two. */
  function TotalSize(ps: seq<Param>): nat {
    if ps == [] then 0
    else if |ps| == 1 then Size(ps[0])
    else Size(ps[0]) + 1 + TotalSize(ps[1..])
  }

  /** The exact length of the parameter text. */
  lemma {:induction false} ParamsSize(ps: seq<Param>)
    ensures |ParamsText(ps)| == TotalSize(ps)
    decreases |ps|
  {
    if ps != [] {
      match ps[0] {
        case Num(n) =>
        case Str(s) => EscapedLength(s);
      }
      ParamsSize(ps[1..]);
    }
  }

  function Budget(p: Param): nat {
    match p
    case Num(_) => 11
    case Str(s) => 2 * |s| + 2
  }

  function TotalBudget(ps: seq<Param>): nat {
    if ps == [] then 0
    else if |ps| == 1 then Budget(ps[0])
    else Budget(ps[0]) + 1 + TotalBudget(ps[1..])
  }

  lemma WithinBudget(p: Param)
    ensures Size(p) <= Budget(p)
  {
    if p.Num? {
      assert Pow10(10) == 10000000000;
      DecimalLength(Abs(p.n), 10);
    }
  }

  /** At most 2|s| + 2 bytes for a string, 11 for a number, and one for each separator. */
  lemma {:induction false} ParamsLength(ps: seq<Param>)
    ensures |ParamsText(ps)| <= TotalBudget(ps)
    decreases |ps|
  {
    ParamsSize(ps);
    if ps != [] {
      WithinBudget(ps[0]);
      ParamsSize(ps[1..]);
      ParamsLength(ps[1..]);
    }
  }

  // ----- The C loops -----

  /** set_params: appends the text of the parameters to the buffer. */
  method SetParams(dest: seq<Byte>, ps: seq<Param>) returns (buff: seq<Byte>)
    ensures buff == dest + ParamsText(ps)
  {
    hide ParamsText;
    buff := dest;
    var i := 0;
    NoParams();
    while i < |ps|
      invariant 0 <= i <= |ps|
      invariant buff + ParamsText(ps[i..]) == dest + ParamsText(ps)
    {
      ghost var before, rest := buff, ps[i..];
      ParamsNext(rest);
      assert rest[1..] == ps[i + 1..];
      buff := AppendParam(buff, ps[i]);
      i := i + 1;
      if i < |ps| {
        buff := buff + [COMMA];
        assert before + (ParamText(rest[0]) + ([COMMA] + ParamsText(ps[i..]))) == buff + ParamsText(ps[i..]);
      } else {
        assert ps[i..] == [];
        assert buff + [] == buff;
      }
    }
    assert ps[i..] == [];
    assert buff + [] == buff;
  }

  lemma NoParams()
    ensures ParamsText([]) == []
  {
  }

  lemma ParamsNext(ps: seq<Param>)
    requires ps != []
    ensures ParamsText(ps) == if |ps| == 1 then ParamText(ps[0]) else ParamText(ps[0]) + ([COMMA] + ParamsText(ps[1..]))
  {
  }

  /** One turn of the format loop. */
  method AppendParam(dest: seq<Byte>, p: Param) returns (buff: seq<Byte>)
    ensures buff == dest + ParamText(p)
  {
    match p {
      case Num(n) =>
        buff := dest + Itoa(n);
      case Str(s) =>
        buff := dest + [QUOTE];
        buff := AppendEscaped(buff, s);
        buff := buff + [QUOTE];
        assert buff == dest + ([QUOTE] + (Escaped(s) + [QUOTE]));
    }
  }

  method AppendEscaped(dest: seq<Byte>, s: seq<Byte>) returns (buff: seq<Byte>)
    ensures buff == dest + Escaped(s)
  {
    buff := dest;
    for i := 0 to |s|
      invariant buff + Escaped(s[i..]) == dest + Escaped(s)
    {
      var ch := s[i];
      assert s[i..][1..] == s[i + 1..];
      ghost var before := buff;
      if NeedsEscape(ch) {
        buff := buff + [BACKSLASH];
      }
      buff := buff + [ch];
      assert before + Escaped(s[i..]) == buff + Escaped(s[i + 1..]);
    }
  }

  datatype CmdOp = Test | Query | Set | Execute

  /** build_cmd: AT, the command name, the operation, the parameters of a set, \\r\\n. */
  method BuildCmd(name: seq<Byte>, op: CmdOp, param: Option<seq<Param>>) returns (cmd: seq<Byte>)
    ensures op == Set && param.Some? ==> cmd == SetText(name, param.value)
    ensures op == Set && param.Some? ==>
              (|cmd| <= CMD_BUFF_LEN <==> |name| + TotalSize(param.value) <= 115)
    ensures op == Query ==> cmd == [65, 84] + name + [63, 13, 10]
    ensures op == Test ==> cmd == [65, 84] + name + [61, 63, 13, 10]
    ensures op == Execute || (op == Set && param.None?) ==> cmd == [65, 84] + name + [13, 10]
  {
    cmd := [65, 84];
    cmd := cmd + name;
    if op == Query {
      cmd := cmd + [63];
    }
    if op == Test {
      cmd := cmd + [61];
      cmd := cmd + [63];
    }
    if op == Set && param.Some? {
      cmd := cmd + [61];
      cmd := SetParams(cmd, param.value);
      SetFitsIff(name, param.value);
    }
    cmd := cmd + [13, 10];
  }

  /** Two set commands of the same name with the same text have the same parameters. */
  lemma CommandDetermines(name: seq<Byte>, ps: seq<Param>, ps': seq<Param>)
    requires SetText(name, ps) == SetText(name, ps')
    ensures ps == ps'
  {
    hide ParamsText, ReadParams;
    var head := [65, 84] + name + [61];
    var a, b := head + ParamsText(ps) + [13, 10], head + ParamsText(ps') + [13, 10];
    assert ParamsText(ps) == a[|head|..|a| - 2] && ParamsText(ps') == b[|head|..|b| - 2];
    ParamsRoundTrip(ps);
    ParamsRoundTrip(ps');
  }

  // ----- The command buffer -----

  const CMD_BUFF_LEN: nat := 120

  /** The text of a set command. */
  function SetText(name: seq<Byte>, ps: seq<Param>): seq<Byte> {
    [65, 84] + name + [61] + ParamsText(ps) + [13, 10]
  }

  /** A set command stays inside its buffer exactly when name and parameters leave room for five bytes. */
  lemma SetFitsIff(name: seq<Byte>, ps: seq<Param>)
    ensures |SetText(name, ps)| <= CMD_BUFF_LEN <==> |name| + TotalSize(ps) <= 115
  {
    ParamsSize(ps);
  }

  const CWSAP: seq<Byte> := [43, 67, 87, 83, 65, 80]  // +CWSAP

  function AccessPoint(ssid: seq<Byte>, pwd: seq<Byte>, channel: Int32, encryption: Int32): seq<Param> {
    [Str(ssid), Str(pwd), Num(channel), Num(encryption)]
  }

  /**
    The command the buffer was sized for: what has to fit beside its fixed 18 bytes is both
    strings with their backslashes and both numbers.
   */
  lemma AccessPointFitsIff(ssid: seq<Byte>, pwd: seq<Byte>, channel: Int32, encryption: Int32)
    ensures |SetText(CWSAP, AccessPoint(ssid, pwd, channel, encryption))| <= CMD_BUFF_LEN <==>
            |ssid| + Escapes(ssid) + |pwd| + Escapes(pwd) + Size(Num(channel)) + Size(Num(encryption)) <= 102
  {
    hide SetText, TotalSize, Size, Escapes;
    SetFitsIff(CWSAP, AccessPoint(ssid, pwd, channel, encryption));
    AccessPointSize(ssid, pwd, channel, encryption);
  }

  lemma AccessPointSize(ssid: seq<Byte>, pwd: seq<Byte>, channel: Int32, encryption: Int32)
    ensures TotalSize(AccessPoint(ssid, pwd, channel, encryption)) ==
            |ssid| + Escapes(ssid) + |pwd| + Escapes(pwd) + Size(Num(channel)) + Size(Num(encryption)) + 7
  {
    hide Escapes, Decimal;
    var two := [Num(channel), Num(encryption)];
    var three := [Str(pwd)] + two;
    assert two[1..] == [Num(encryption)];
    assert TotalSize(two) == Size(Num(channel)) + 1 + Size(Num(encryption));
    assert three[1..] == two;
    assert TotalSize(three) == Size(Str(pwd)) + 1 + TotalSize(two);
    assert AccessPoint(ssid, pwd, channel, encryption)[1..] == three;
  }

  /** n commas. */
  function Commas(n: nat): (s: seq<Byte>)
    ensures |s| == n && Escapes(s) == n
  {
    if n == 0 then [] else [COMMA] + Commas(n - 1)
  }

  /** A name of 32 and a password of 64 characters, all commas, need 212 bytes. */
  lemma CommasOverflow()
    ensures |SetText(CWSAP, AccessPoint(Commas(32), Commas(64), 1, 4))| == 212 > CMD_BUFF_LEN
  {
    hide Commas;
    ParamsSize(AccessPoint(Commas(32), Commas(64), 1, 4));
    AccessPointSize(Commas(32), Commas(64), 1, 4);
  }

  // ----- The text, byte by byte -----

  /** A quote, a comma or a backslash gets a backslash in front; every other byte is sent as it is. */
  lemma {:induction false} EscapedAt(a: seq<Byte>, b: Byte, c: seq<Byte>)
    ensures Escaped(a + [b] + c) ==
            Escaped(a) + (if b == 34 || b == 44 || b == 92 then [92, b] else [b]) + Escaped(c)
    decreases |a|
  {
    if a == [] {
      assert (a + [b] + c)[1..] == c;
    } else {
      assert (a + [b] + c)[1..] == a[1..] + [b] + c;
      EscapedAt(a[1..], b, c);
    }
  }

  lemma {:induction false} PlainUnescaped(s: seq<Byte>)
    requires forall i :: 0 <= i < |s| ==> s[i] != 34 && s[i] != 44 && s[i] != 92
    ensures Escaped(s) == s
  {
    if s != [] {
      PlainUnescaped(s[1..]);
      assert [s[0]] + s[1..] == s;
    }
  }

  /** The backslashes are as many as the quotes, commas and backslashes of the string. */
  lemma {:induction false} EscapesCount(s: seq<Byte>)
    ensures Escapes(s) == multiset(s)[34] + multiset(s)[44] + multiset(s)[92]
  {
    if s != [] {
      EscapesCount(s[1..]);
      assert s == [s[0]] + s[1..];
    }
  }

  /** A string stands in quotes. */
  lemma QuotedText(s: seq<Byte>)
    ensures ParamText(Str(s)) == [34] + Escaped(s) + [34]
  {
  }

  /** Commas separate the parameters, and stand nowhere else between them. */
  lemma SeparatedText(p: Param, ps: seq<Param>)
    ensures ParamsText([p]) == ParamText(p)
    ensures ps != [] ==> ParamsText([p] + ps) == ParamText(p) + [44] + ParamsText(ps)
  {
    if ps != [] {
      assert ([p] + ps)[1..] == ps;
      assert ParamText(p) + ([44] + ParamsText(ps)) == ParamText(p) + [44] + ParamsText(ps);
    }
  }

  /** A number is its digits, most significant first, after a minus sign if it is negative. */
  lemma NumberText(n: Int32)
    ensures n < 0 ==> Itoa(n) == [45] + Decimal(0 - n as int)
    ensures n >= 0 ==> Itoa(n) == Decimal(n)
  {
  }
}
