/** The line the backend prints once it is listening, and the shell's strict parser for it. */
module Handshake {
  import opened Wrappers
  import opened Utf8
  import opened Text
  import Numerals

  datatype BootState = Ready | NeedsSetup | NeedsSellerConfig

  datatype Handshake = Handshake(url: string, port: nat, fingerprintHex: string, state: BootState)

  const PREFIX := "READY"
  const FINGERPRINT_MARKER := "sha256:"
  const STATE_MARKER := "state="
  const HASH_BYTES := 32
  const MAX_PORT := 0xFFFF

  // ----- IPv4 socket addresses -----

  datatype Socket = Socket(a: nat, b: nat, c: nat, d: nat, port: nat)

  predicate ValidSocket(s: Socket)
  {
    s.a <= 255 && s.b <= 255 && s.c <= 255 && s.d <= 255 && s.port <= MAX_PORT
  }

  /** One to three digits, no leading zero, at most 255. */
  function ReadOctet(s: string): (r: Option<nat>)
    ensures r.Some? ==> r.value <= 255
  {
    if 1 <= |s| <= 3 && Numerals.AllDigits(s) && (|s| > 1 ==> s[0] != '0') && Numerals.Value(s) <= 255
    then Some(Numerals.Value(s)) else None
  }

  /** Any number of digits, leading zeros included, with a value in 16 bits. */
  function ReadPort(s: string): (r: Option<nat>)
    ensures r.Some? ==> r.value <= MAX_PORT
  {
    if s != "" && Numerals.AllDigits(s) && Numerals.Value(s) <= MAX_PORT then Some(Numerals.Value(s)) else None
  }

  function ReadHost(s: string): Option<(nat, nat, nat, nat)>
  {
    var parts := Split(s, '.');
    if |parts| != 4 then None
    else
      var a :- ReadOctet(parts[0]);
      var b :- ReadOctet(parts[1]);
      var c :- ReadOctet(parts[2]);
      var d :- ReadOctet(parts[3]);
      Some((a, b, c, d))
  }

  /** `parse::<SocketAddr>` where it yields an IPv4 address. */
  function ReadSocket(s: string): (r: Option<Socket>)
  {
    var parts := Split(s, ':');
    if |parts| != 2 then None
    else
      var host :- ReadHost(parts[0]);
      var port :- ReadPort(parts[1]);
      Some(Socket(host.0, host.1, host.2, host.3, port))
  }

  function PrintHost(s: Socket): string
  {
    Join([Numerals.Print(s.a), Numerals.Print(s.b), Numerals.Print(s.c), Numerals.Print(s.d)], '.')
  }

  function PrintSocket(s: Socket): string { Join([PrintHost(s), Numerals.Print(s.port)], ':') }

  // ----- fingerprints -----

  function LowerHexDigit(n: nat): char
    requires n < 16
  {
    if n < 10 then ('0' as int + n) as char else ('a' as int + n - 10) as char
  }

  /** `hex::encode`. */
  function HexEncode(bs: Bytes): (s: string)
    ensures |s| == 2 * |bs|
  {
    if bs == [] then "" else [LowerHexDigit(bs[0] / 16), LowerHexDigit(bs[0] % 16)] + HexEncode(bs[1..])
  }

  /** `hex::decode`: digit pairs of either case. */
  function HexDecode(s: string): (r: Option<Bytes>)
    ensures r.Some? ==> |s| == 2 * |r.value|
  {
    if s == "" then Some([])
    else if |s| == 1 then None
    else
      var hi :- Numerals.HexValue(s[0]);
      var lo :- Numerals.HexValue(s[1]);
      var rest :- HexDecode(s[2..]);
      Some([hi * 16 + lo] + rest)
  }

  predicate IsLowerHexByte(b: int) { 0x30 <= b <= 0x39 || 0x61 <= b <= 0x66 }

  datatype ParseError =
    | EmptyLine
    | WrongPrefix
    | MissingAddr
    | AddrRefused         // not a socket address, or an IPv6 one
    | NotLoopback
    | PortZero
    | MissingFingerprint
    | NoFingerprintMarker
    | FingerprintLength(bytes: nat)
    | FingerprintCharacter
    | FingerprintUndecodable
    | NoStateMarker
    | UnknownState
    | TrailingTokens

  /** `validate_fingerprint_hex`, on bytes as the source has it. */
  function CheckFingerprint(s: string): Option<ParseError>
  {
    var bytes := Encode(s);
    if |bytes| != 64 then Some(FingerprintLength(|bytes|))
    else if exists i :: 0 <= i < |bytes| && !IsLowerHexByte(bytes[i]) then Some(FingerprintCharacter)
    else if HexDecode(s).None? then Some(FingerprintUndecodable)
    else None
  }

  // ----- the parser -----

  function ParseStateValue(value: string): Option<BootState>
  {
    if value == "ready" then Some(Ready)
    else if value == "needs-setup" then Some(NeedsSetup)
    else if value == "needs-seller-config" then Some(NeedsSellerConfig)
    else None
  }

  function ParseState(tokens: seq<string>): Result<BootState, ParseError>
  {
    if |tokens| < 4 then Ok(Ready)
    else if !StartsWith(tokens[3], STATE_MARKER) then Err(NoStateMarker)
    else
      match ParseStateValue(tokens[3][|STATE_MARKER|..])
      case None => Err(UnknownState)
      case Some(state) => if |tokens| > 4 then Err(TrailingTokens) else Ok(state)
  }

  function ParseAddr(tokens: seq<string>): Result<Socket, ParseError>
  {
    if |tokens| == 0 then Err(EmptyLine)
    else if tokens[0] != PREFIX then Err(WrongPrefix)
    else if |tokens| < 2 then Err(MissingAddr)
    else
      match ReadSocket(tokens[1])
      case None => Err(AddrRefused)
      case Some(s) => if s.a != 127 then Err(NotLoopback) else if s.port == 0 then Err(PortZero) else Ok(s)
  }

  function ParseFingerprint(tokens: seq<string>): Result<string, ParseError>
  {
    if |tokens| < 3 then Err(MissingFingerprint)
    else if !StartsWith(tokens[2], FINGERPRINT_MARKER) then Err(NoFingerprintMarker)
    else
      var fp := tokens[2][|FINGERPRINT_MARKER|..];
      if CheckFingerprint(fp).Some? then Err(CheckFingerprint(fp).value) else Ok(fp)
  }

  function Url(s: Socket): string { "https://" + PrintSocket(s) }

  function ParseTokens(tokens: seq<string>): Result<Handshake, ParseError>
  {
    var socket :- ParseAddr(tokens);
    var fp :- ParseFingerprint(tokens);
    var state :- ParseState(tokens);
    Ok(Handshake(Url(socket), socket.port, fp, state))
  }

  function Parse(line: string): Result<Handshake, ParseError> { ParseTokens(Tokens(Trim(line))) }

  // ----- the line the backend prints -----

  function StateToken(s: BootState): string
  {
    match s
    case Ready => "ready"
    case NeedsSetup => "needs-setup"
    case NeedsSellerConfig => "needs-seller-config"
  }

  /** The words of the line; the state word may be missing, which stands for ready. */
  function Words(s: Socket, hash: Bytes, state: Option<BootState>): seq<string>
  {
    [PREFIX, PrintSocket(s), FINGERPRINT_MARKER + HexEncode(hash)]
    + if state.None? then [] else [STATE_MARKER + StateToken(state.value)]
  }

  function Line(s: Socket, hash: Bytes, state: Option<BootState>): string { Join(Words(s, hash, state), ' ') }

  // ----- sockets read back -----

  lemma OctetRecovered(n: nat)
    requires n <= 255
    ensures ReadOctet(Numerals.Print(n)) == Some(n) && '.' !in Numerals.Print(n)
  {
    Numerals.ValueOfPrint(n);
    NotADigit(Numerals.Print(n), '.');
    assert |Numerals.Print(n / 10 / 10)| == 1 || n < 100;
  }

  lemma NotADigit(s: string, c: char)
    requires Numerals.AllDigits(s) && !Numerals.IsDigit(c)
    ensures c !in s
  {
  }

  lemma HostRecovered(s: Socket)
    requires ValidSocket(s)
    ensures ReadHost(PrintHost(s)) == Some((s.a, s.b, s.c, s.d)) && ':' !in PrintHost(s)
  {
    hide ReadOctet, Numerals.Print, Split, Join;
    OctetRecovered(s.a);
    OctetRecovered(s.b);
    OctetRecovered(s.c);
    OctetRecovered(s.d);
    var parts := [Numerals.Print(s.a), Numerals.Print(s.b), Numerals.Print(s.c), Numerals.Print(s.d)];
    SplitJoin(parts, '.');
    forall p | p in parts
      ensures ':' !in p
    {
      NotADigit(p, ':');
    }
    NotJoined(parts, '.', ':');
  }

  lemma {:induction false} NotJoined(ps: seq<string>, c: char, x: char)
    requires x != c && forall p :: p in ps ==> x !in p
    ensures x !in Join(ps, c)
  {
    if |ps| <= 1 {
    } else {
      NotJoined(ps[1..], c, x);
    }
  }

  lemma SocketRecovered(s: Socket)
    requires s.a <= 255 && s.b <= 255 && s.c <= 255 && s.d <= 255 && s.port <= 65535
    ensures ReadSocket(PrintSocket(s)) == Some(s)
  {
    hide ReadHost, PrintHost, Numerals.Print, Split, Join;
    HostRecovered(s);
    Numerals.ValueOfPrint(s.port);
    NotADigit(Numerals.Print(s.port), ':');
    SplitJoin([PrintHost(s), Numerals.Print(s.port)], ':');
  }

  lemma OctetText(t: string)
    requires ReadOctet(t).Some?
    ensures Numerals.Print(ReadOctet(t).value) == t
  {
    Numerals.PrintOfValue(t);
  }

  /** A host is accepted in one spelling only. */
  lemma HostText(t: string, s: Socket)
    requires ReadHost(t) == Some((s.a, s.b, s.c, s.d))
    ensures PrintHost(s) == t
  {
    hide ReadOctet, Split, Join, Numerals.Print;
    var parts := Split(t, '.');
    OctetText(parts[0]);
    OctetText(parts[1]);
    OctetText(parts[2]);
    OctetText(parts[3]);
    JoinSplit(t, '.');
    assert parts == [parts[0], parts[1], parts[2], parts[3]];
  }

  /** What an accepted address looks like: the host as it is printed, and digits of the port. */
  lemma SocketText(t: string) returns (port: string)
    requires ReadSocket(t).Some?
    ensures var s := ReadSocket(t).value;
      ValidSocket(s) && t == PrintHost(s) + ":" + port && Numerals.AllDigits(port) && Numerals.Value(port) == s.port
  {
    hide PrintHost, Split;
    var parts := Split(t, ':');
    port := parts[1];
    HostText(parts[0], ReadSocket(t).value);
    JoinSplit(t, ':');
    assert parts == [parts[0], parts[1]] && parts[1..] == [port];
    assert Join(parts, ':') == parts[0] + [':'] + port;
  }

  // ----- fingerprints read back -----

  lemma HexPair(b: Byte)
    ensures Numerals.HexValue(LowerHexDigit(b / 16)) == Some(b / 16)
    ensures Numerals.HexValue(LowerHexDigit(b % 16)) == Some(b % 16)
    ensures b / 16 * 16 + b % 16 == b
    ensures IsLowerHexByte(LowerHexDigit(b / 16) as int) && IsLowerHexByte(LowerHexDigit(b % 16) as int)
  {
  }

  lemma {:induction false} HexRecovered(bs: Bytes)
    ensures HexDecode(HexEncode(bs)) == Some(bs)
    ensures forall i :: 0 <= i < |HexEncode(bs)| ==> IsLowerHexByte(HexEncode(bs)[i] as int)
  {
    if bs == [] {
    } else {
      hide Numerals.HexValue, LowerHexDigit;
      HexRecovered(bs[1..]);
      HexPair(bs[0]);
      var s := HexEncode(bs);
      assert s[2..] == HexEncode(bs[1..]);
      assert bs == [bs[0]] + bs[1..];
    }
  }

  lemma DigitOfValue(c: char)
    requires IsLowerHexByte(c as int)
    ensures Numerals.HexValue(c).Some? && LowerHexDigit(Numerals.HexValue(c).value) == c
  {
  }

  lemma ByteOfPair(hi: nat, lo: nat)
    requires hi < 16 && lo < 16
    ensures (hi * 16 + lo) / 16 == hi && (hi * 16 + lo) % 16 == lo
  {
  }

  lemma {:induction false} LowerHexIsEncoded(s: string)
    requires |s| % 2 == 0 && forall i :: 0 <= i < |s| ==> IsLowerHexByte(s[i] as int)
    ensures HexDecode(s).Some? && HexEncode(HexDecode(s).value) == s
  {
    if s == "" {
    } else {
      hide Numerals.HexValue, LowerHexDigit;
      DigitOfValue(s[0]);
      DigitOfValue(s[1]);
      ByteOfPair(Numerals.HexValue(s[0]).value, Numerals.HexValue(s[1]).value);
      LowerHexIsEncoded(s[2..]);
      var rest := HexDecode(s[2..]).value;
      assert HexDecode(s).value[1..] == rest;
      assert s == [s[0], s[1]] + s[2..];
    }
  }

  /** The fingerprint check passes exactly the encodings of 32 bytes; once length and alphabet are
      right, the final decode cannot fail. */
  lemma FingerprintChecked(s: string)
    ensures CheckFingerprint(s).None? <==>
      HexDecode(s).Some? && |HexDecode(s).value| == 32 && HexEncode(HexDecode(s).value) == s
    ensures CheckFingerprint(s) != Some(FingerprintUndecodable)
  {
    hide HexDecode, HexEncode;
    if forall i :: 0 <= i < |s| ==> IsLowerHexByte(s[i] as int) {
      EncodeAscii(s);
      if |s| == 64 { LowerHexIsEncoded(s); }
    } else {
      var i := NotLowerHex(s);
      if HexDecode(s).Some? { HexRecovered(HexDecode(s).value); }
    }
  }

  lemma {:induction false} NotLowerHex(s: string) returns (i: nat)
    requires exists k :: 0 <= k < |s| && !IsLowerHexByte(s[k] as int)
    ensures i < |Encode(s)| && !IsLowerHexByte(Encode(s)[i])
  {
    hide EncodeChar;
    var w := EncodeChar(s[0]);
    EncodeCharShape(s[0]);
    if !IsLowerHexByte(s[0] as int) {
      i := 0;
      FirstByteNotLowerHex(s[0]);
    } else {
      var k :| 0 <= k < |s| && !IsLowerHexByte(s[k] as int);
      assert s[1..][k - 1] == s[k];
      var j := NotLowerHex(s[1..]);
      i := |w| + j;
    }
  }

  lemma FirstByteNotLowerHex(c: char)
    requires !IsLowerHexByte(c as int)
    ensures !IsLowerHexByte(EncodeChar(c)[0])
  {
  }

  /** Each byte is two lower-case digits, the high one first. */
  lemma {:induction false} HexSpelled(bs: Bytes, i: nat)
    requires i < |bs|
    ensures HexEncode(bs)[2 * i..2 * i + 2] == ["0123456789abcdef"[bs[i] / 16], "0123456789abcdef"[bs[i] % 16]]
  {
    if i == 0 {
      LowerHexSpelled(bs[0] / 16);
      LowerHexSpelled(bs[0] % 16);
    } else {
      hide LowerHexDigit;
      var s := HexEncode(bs);
      HexSpelled(bs[1..], i - 1);
      assert s[2..] == HexEncode(bs[1..]);
      assert s[2..][2 * (i - 1)..2 * (i - 1) + 2] == s[2 * i..2 * i + 2];
    }
  }

  lemma LowerHexSpelled(n: nat)
    requires n < 16
    ensures LowerHexDigit(n) == "0123456789abcdef"[n]
  {
  }

  // ----- the line as text -----

  lemma JoinFour(a: string, b: string, c: string, d: string, x: char)
    ensures Join([a, b, c, d], x) == a + [x] + b + [x] + c + [x] + d
  {
    assert [a, b, c, d][1..] == [b, c, d] && [b, c, d][1..] == [c, d] && [c, d][1..] == [d];
    assert Join([c, d], x) == c + [x] + d;
    assert Join([b, c, d], x) == b + [x] + (c + [x] + d);
  }

  lemma JoinThree(a: string, b: string, c: string, x: char)
    ensures Join([a, b, c], x) == a + [x] + b + [x] + c
  {
    assert [a, b, c][1..] == [b, c] && [b, c][1..] == [c];
    assert Join([b, c], x) == b + [x] + c;
  }

  lemma JoinTwo(a: string, b: string, x: char)
    ensures Join([a, b], x) == a + [x] + b
  {
    assert [a, b][1..] == [b];
  }

  lemma SocketSpelled(s: Socket)
    ensures PrintSocket(s) == Numerals.Print(s.a) + "." + Numerals.Print(s.b) + "." + Numerals.Print(s.c) + "."
                              + Numerals.Print(s.d) + ":" + Numerals.Print(s.port)
  {
    hide Numerals.Print, Join;
    JoinFour(Numerals.Print(s.a), Numerals.Print(s.b), Numerals.Print(s.c), Numerals.Print(s.d), '.');
    JoinTwo(PrintHost(s), Numerals.Print(s.port), ':');
  }

  /** The URL and the line as they are written. */
  lemma LineSpelled(s: Socket, hash: Bytes, state: BootState)
    ensures var addr := Numerals.Print(s.a) + "." + Numerals.Print(s.b) + "." + Numerals.Print(s.c) + "."
                        + Numerals.Print(s.d) + ":" + Numerals.Print(s.port);
      && Url(s) == "https://" + addr
      && Line(s, hash, None) == "READY " + addr + " sha256:" + HexEncode(hash)
      && Line(s, hash, Some(state)) == "READY " + addr + " sha256:" + HexEncode(hash) + " state="
           + match state
             case Ready => "ready"
             case NeedsSetup => "needs-setup"
             case NeedsSellerConfig => "needs-seller-config"
  {
    hide Numerals.Print, HexEncode, Join, PrintSocket;
    SocketSpelled(s);
    var fingerprint, token := FINGERPRINT_MARKER + HexEncode(hash), STATE_MARKER + StateToken(state);
    JoinThree(PREFIX, PrintSocket(s), fingerprint, ' ');
    JoinFour(PREFIX, PrintSocket(s), fingerprint, token, ' ');
    assert Words(s, hash, None) == [PREFIX, PrintSocket(s), fingerprint];
    assert Words(s, hash, Some(state)) == [PREFIX, PrintSocket(s), fingerprint, token];
    Pieces(PREFIX + [' '] + PrintSocket(s), HexEncode(hash), StateToken(state));
    assert PREFIX + [' '] == "READY ";
  }

  lemma Pieces(head: string, hex: string, state: string)
    ensures head + [' '] + (FINGERPRINT_MARKER + hex) == head + " sha256:" + hex
    ensures head + [' '] + (FINGERPRINT_MARKER + hex) + [' '] + (STATE_MARKER + state) ==
      head + " sha256:" + hex + " state=" + state
  {
    Slide(head, [' '], FINGERPRINT_MARKER, hex);
    assert [' '] + FINGERPRINT_MARKER == " sha256:";
    Slide(head + " sha256:" + hex, [' '], STATE_MARKER, state);
    assert [' '] + STATE_MARKER == " state=";
  }

  lemma Slide(a: string, b: string, c: string, d: string)
    ensures a + b + (c + d) == a + (b + c) + d
  {
  }

  // ----- the line read back -----

  lemma {:induction false} TokensOfWords(ws: seq<string>)
    requires forall i :: 0 <= i < |ws| ==> IsWord(ws[i])
    ensures Tokens(Join(ws, ' ')) == ws
  {
    if |ws| > 1 {
      hide Tokens;
      var rest := Join(ws[1..], ' ');
      TokensOfWords(ws[1..]);
      TokensSpace(rest);
      assert Join(ws, ' ') == ws[0] + (" " + rest);
      TokensCons(ws[0], " " + rest);
      assert ws == [ws[0]] + ws[1..];
    } else if |ws| == 1 {
      TokensCons(ws[0], "");
      assert ws[0] + "" == ws[0];
      assert ws == [ws[0]];
    }
  }

  predicate Visible(c: char) { '!' <= c <= '~' }

  predicate AllVisible(s: string) { forall i :: 0 <= i < |s| ==> Visible(s[i]) }

  lemma VisibleWord(w: string)
    requires AllVisible(w) && w != ""
    ensures IsWord(w)
  {
  }

  lemma {:induction false} VisibleJoin(ps: seq<string>, c: char)
    requires Visible(c) && forall p :: p in ps ==> AllVisible(p)
    ensures AllVisible(Join(ps, c))
  {
    if ps != [] { assert ps[0] in ps; }
    if |ps| <= 1 {
    } else {
      VisibleJoin(ps[1..], c);
    }
  }

  lemma VisibleSocket(s: Socket)
    ensures AllVisible(PrintSocket(s)) && PrintSocket(s) != ""
  {
    hide Numerals.Print;
    VisibleJoin([Numerals.Print(s.a), Numerals.Print(s.b), Numerals.Print(s.c), Numerals.Print(s.d)], '.');
    VisibleJoin([PrintHost(s), Numerals.Print(s.port)], ':');
  }

  lemma WordsVisible(s: Socket, hash: Bytes, state: Option<BootState>)
    ensures var ws := Words(s, hash, state); forall i :: 0 <= i < |ws| ==> AllVisible(ws[i]) && |ws[i]| > 0
  {
    hide HexEncode, PrintSocket;
    VisibleSocket(s);
    HexRecovered(hash);
    assert AllVisible(FINGERPRINT_MARKER + HexEncode(hash));
    assert state.Some? ==> AllVisible(STATE_MARKER + StateToken(state.value));
  }

  lemma {:induction false} JoinEnds(ws: seq<string>)
    requires ws != [] && forall i :: 0 <= i < |ws| ==> AllVisible(ws[i]) && |ws[i]| > 0
    ensures var l := Join(ws, ' '); l != "" && Visible(l[0]) && Visible(l[|l| - 1])
  {
    assert Visible(ws[0][0]) && Visible(ws[0][|ws[0]| - 1]);
    if |ws| <= 1 {
    } else {
      JoinEnds(ws[1..]);
    }
  }

  lemma TokensOfLine(s: Socket, hash: Bytes, state: Option<BootState>, before: string, after: string)
    requires forall i :: 0 <= i < |before| ==> IsWhitespace(before[i])
    requires forall i :: 0 <= i < |after| ==> IsWhitespace(after[i])
    ensures Tokens(Trim(before + Line(s, hash, state) + after)) == Words(s, hash, state)
  {
    hide Words, Join, Tokens, Trim;
    var ws := Words(s, hash, state);
    assert |ws| >= 3 by { ThreeWords(s, hash, state); }
    WordsVisible(s, hash, state);
    forall i | 0 <= i < |ws|
      ensures IsWord(ws[i])
    {
      VisibleWord(ws[i]);
    }
    JoinEnds(ws);
    TrimPadded(before, Line(s, hash, state), after);
    TokensOfWords(ws);
  }

  lemma ThreeWords(s: Socket, hash: Bytes, state: Option<BootState>)
    ensures |Words(s, hash, state)| >= 3
  {
  }

  predicate Loopback(s: Socket) { ValidSocket(s) && s.a == 127 && s.port > 0 }

  function StateOf(state: Option<BootState>): BootState { if state.None? then Ready else state.value }

  function Printed(s: Socket, hash: Bytes, state: BootState): Handshake
  {
    Handshake(Url(s), s.port, HexEncode(hash), state)
  }

  lemma StateRecovered(state: BootState)
    ensures ParseStateValue(StateToken(state)) == Some(state)
  {
  }

  /** The lines the parser accepts: these words, the address in any spelling that reads as `s`. */
  ghost predicate IsLineOf(tokens: seq<string>, s: Socket, hash: Bytes, state: Option<BootState>)
  {
    && Loopback(s) && |hash| == HASH_BYTES
    && |tokens| >= 2 && ReadSocket(tokens[1]) == Some(s)
    && tokens == Words(s, hash, state)[1 := tokens[1]]
  }

  lemma WordsAccepted(tokens: seq<string>, s: Socket, hash: Bytes, state: Option<BootState>)
    requires IsLineOf(tokens, s, hash, state)
    ensures ParseTokens(tokens) == Ok(Printed(s, hash, StateOf(state)))
  {
    hide ReadSocket, PrintSocket, HexEncode, HexDecode, CheckFingerprint, ParseStateValue, StateToken;
    var fp := HexEncode(hash);
    assert (FINGERPRINT_MARKER + fp)[|FINGERPRINT_MARKER|..] == fp;
    HexRecovered(hash);
    FingerprintChecked(fp);
    if state.Some? {
      StateRecovered(state.value);
      assert (STATE_MARKER + StateToken(state.value))[|STATE_MARKER|..] == StateToken(state.value);
    }
  }

  /** Whatever loopback socket, certificate hash and boot state the backend prints, with whatever
      whitespace around the line, the shell reads back the same; no state word reads as ready. */
  lemma RoundTrip(s: Socket, hash: Bytes, state: Option<BootState>, before: string, after: string)
    requires s.a == 127 && s.b <= 255 && s.c <= 255 && s.d <= 255 && 0 < s.port <= 65535 && |hash| == 32
    requires forall i :: 0 <= i < |before| ==> IsWhitespace(before[i])
    requires forall i :: 0 <= i < |after| ==> IsWhitespace(after[i])
    ensures Parse(before + Line(s, hash, state) + after) == Ok(Printed(s, hash, StateOf(state)))
  {
    hide Tokens, Trim, Line, ReadSocket, PrintSocket, HexEncode, ParseTokens;
    TokensOfLine(s, hash, state, before, after);
    SocketRecovered(s);
    var ws := Words(s, hash, state);
    assert ws[1 := ws[1]] == ws;
    WordsAccepted(ws, s, hash, state);
  }

  lemma StateText(value: string)
    requires ParseStateValue(value).Some?
    ensures StateToken(ParseStateValue(value).value) == value
  {
  }

  lemma MarkedText(token: string, marker: string)
    requires StartsWith(token, marker)
    ensures marker + token[|marker|..] == token
  {
  }

  /** Every accepted line has exactly these words: an IPv4 loopback host in its one spelling, the
      digits of a port that is not zero, the encoding of 32 bytes, and a known state or none. */
  lemma AcceptedLine(line: string) returns (s: Socket, port: string, hash: Bytes, state: Option<BootState>)
    ensures Parse(line).Ok? ==>
      && IsLineOf(Tokens(Trim(line)), s, hash, state)
      && s.a == 127 && s.b <= 255 && s.c <= 255 && s.d <= 255 && 0 < s.port <= 65535 && |hash| == 32
      && Tokens(Trim(line))[1] == PrintHost(s) + ":" + port
      && Numerals.AllDigits(port) && Numerals.Value(port) == s.port
      && Parse(line) == Ok(Printed(s, hash, StateOf(state)))
  {
    hide Tokens, Trim, ReadSocket, PrintHost, PrintSocket, Numerals.Value;
    hide HexEncode, HexDecode, CheckFingerprint, ParseStateValue, StateToken;
    s, port, hash, state := Socket(0, 0, 0, 0, 0), "", [], None;
    if Parse(line).Ok? {
      var tokens := Tokens(Trim(line));
      s := ReadSocket(tokens[1]).value;
      port := SocketText(tokens[1]);
      var fp := tokens[2][|FINGERPRINT_MARKER|..];
      MarkedText(tokens[2], FINGERPRINT_MARKER);
      FingerprintChecked(fp);
      hash := HexDecode(fp).value;
      if |tokens| == 4 {
        var value := tokens[3][|STATE_MARKER|..];
        MarkedText(tokens[3], STATE_MARKER);
        StateText(value);
        state := ParseStateValue(value);
      }
      assert tokens == Words(s, hash, state)[1 := tokens[1]];
      WordsAccepted(tokens, s, hash, state);
    }
  }

  /** A line that stops after fewer words is refused for the first word that is missing. */
  lemma ShortLine(tokens: seq<string>, s: Socket, hash: Bytes, state: Option<BootState>, k: nat)
    requires IsLineOf(tokens, s, hash, state) && k < 3
    ensures ParseTokens(tokens[..k]) == Err([EmptyLine, MissingAddr, MissingFingerprint][k])
  {
    hide ReadSocket, CheckFingerprint, ParseStateValue;
  }

  /** A line with words behind the state is refused for them. */
  lemma LongLine(tokens: seq<string>, s: Socket, hash: Bytes, state: BootState, more: seq<string>)
    requires IsLineOf(tokens, s, hash, Some(state)) && more != []
    ensures ParseTokens(tokens + more) == Err(TrailingTokens)
  {
    hide ReadSocket, PrintSocket, HexEncode, CheckFingerprint, ParseStateValue, StateToken;
    WordsAccepted(tokens, s, hash, Some(state));
    var longer := tokens + more;
    assert |longer| > 4 && forall i :: 0 <= i < 4 ==> longer[i] == tokens[i];
  }

  /** The line starts with the word and the address of a loopback socket. */
  predicate GoodAddress(tokens: seq<string>)
  {
    |tokens| >= 2 && tokens[0] == "READY" && ReadSocket(tokens[1]).Some?
    && ReadSocket(tokens[1]).value.a == 127 && ReadSocket(tokens[1]).value.port > 0
  }

  /** Why a line is refused before its fingerprint is looked at. */
  lemma AddressRefused(tokens: seq<string>)
    ensures ParseTokens(tokens) == Err(EmptyLine) <==> tokens == []
    ensures ParseTokens(tokens) == Err(WrongPrefix) <==> tokens != [] && tokens[0] != "READY"
    ensures ParseTokens(tokens) == Err(MissingAddr) <==> tokens == ["READY"]
    ensures ParseTokens(tokens) == Err(AddrRefused) <==>
      |tokens| >= 2 && tokens[0] == "READY" && ReadSocket(tokens[1]).None?
    ensures ParseTokens(tokens) == Err(NotLoopback) <==>
      |tokens| >= 2 && tokens[0] == "READY" && ReadSocket(tokens[1]).Some? && ReadSocket(tokens[1]).value.a != 127
    ensures ParseTokens(tokens) == Err(PortZero) <==>
      |tokens| >= 2 && tokens[0] == "READY" && ReadSocket(tokens[1]).Some?
      && ReadSocket(tokens[1]).value.a == 127 && ReadSocket(tokens[1]).value.port == 0
    ensures ParseTokens(tokens) == Err(MissingFingerprint) <==> GoodAddress(tokens) && |tokens| == 2
  {
    hide ReadSocket, CheckFingerprint, ParseStateValue, StartsWith;
    CheckNames(tokens);
    if |tokens| == 1 {
      assert tokens == [tokens[0]];
    }
  }

  lemma CheckNames(tokens: seq<string>)
    ensures |tokens| >= 3 ==>
      var r := ParseFingerprint(tokens);
      r.Ok? || r.error.NoFingerprintMarker? || r.error.FingerprintLength? || r.error.FingerprintCharacter?
      || r.error.FingerprintUndecodable?
  {
  }

  /** Why a line with a good address is refused for its fingerprint. */
  lemma FingerprintRefused(tokens: seq<string>, fp: string, n: nat)
    requires GoodAddress(tokens) && |tokens| >= 3
    ensures ParseTokens(tokens) == Err(NoFingerprintMarker) <==> !exists rest: string :: tokens[2] == "sha256:" + rest
    ensures tokens[2] == "sha256:" + fp ==>
      && (ParseTokens(tokens) == Err(FingerprintLength(n)) <==> n == |Encode(fp)| && n != 64)
      && (ParseTokens(tokens) == Err(FingerprintCharacter) <==>
            |Encode(fp)| == 64
            && exists i :: 0 <= i < |fp| && !('0' <= fp[i] <= '9' || 'a' <= fp[i] <= 'f'))
  {
    hide ReadSocket, ParseStateValue;
    StartsMeans(tokens[2], "sha256:");
    if tokens[2] == "sha256:" + fp {
      assert tokens[2][|FINGERPRINT_MARKER|..] == fp;
      FingerprintChecked(fp);
      LowerHexBytes(fp);
    }
  }

  lemma LowerHexBytes(s: string)
    ensures (exists i :: 0 <= i < |Encode(s)| && !IsLowerHexByte(Encode(s)[i])) <==>
      exists i :: 0 <= i < |s| && !('0' <= s[i] <= '9' || 'a' <= s[i] <= 'f')
  {
    hide Encode;
    assert forall i :: 0 <= i < |s| ==> (IsLowerHexByte(s[i] as int) <==> '0' <= s[i] <= '9' || 'a' <= s[i] <= 'f');
    if forall i :: 0 <= i < |s| ==> IsLowerHexByte(s[i] as int) {
      EncodeAscii(s);
    } else {
      var i := NotLowerHex(s);
    }
  }

  /** Why a line with a good address and fingerprint is refused for what follows. */
  lemma StateRefused(tokens: seq<string>, fp: string)
    requires GoodAddress(tokens) && |tokens| >= 3 && tokens[2] == "sha256:" + fp && CheckFingerprint(fp).None?
    ensures ParseTokens(tokens) == Err(NoStateMarker) <==>
      |tokens| > 3 && !exists rest: string :: tokens[3] == "state=" + rest
    ensures ParseTokens(tokens) == Err(UnknownState) <==>
      |tokens| > 3 && (exists rest: string :: tokens[3] == "state=" + rest)
      && tokens[3] !in {"state=ready", "state=needs-setup", "state=needs-seller-config"}
    ensures ParseTokens(tokens) == Err(TrailingTokens) <==>
      |tokens| > 4 && tokens[3] in {"state=ready", "state=needs-setup", "state=needs-seller-config"}
  {
    hide ReadSocket, CheckFingerprint;
    assert tokens[2][|FINGERPRINT_MARKER|..] == fp;
    if |tokens| > 3 {
      StartsMeans(tokens[3], "state=");
      KnownStates(tokens[3]);
    }
  }

  lemma KnownStates(token: string)
    ensures StartsWith(token, "state=") && ParseStateValue(token[6..]).Some? <==>
      token in {"state=ready", "state=needs-setup", "state=needs-seller-config"}
  {
    assert "state=" + "ready" == "state=ready" && "state=" + "needs-setup" == "state=needs-setup";
    assert "state=" + "needs-seller-config" == "state=needs-seller-config";
    Behind(token, "state=", "ready");
    Behind(token, "state=", "needs-setup");
    Behind(token, "state=", "needs-seller-config");
  }

  lemma Behind(token: string, marker: string, value: string)
    ensures token == marker + value <==>
      |token| >= |marker| && token[..|marker|] == marker && token[|marker|..] == value
  {
    if |token| >= |marker| {
      assert token == token[..|marker|] + token[|marker|..];
    }
  }

  /** Printing what an accepted line says gives a line that is read the same way. */
  lemma AcceptedReprints(line: string, s: Socket, hash: Bytes, state: Option<BootState>)
    ensures IsLineOf(Tokens(Trim(line)), s, hash, state) ==> Parse(Line(s, hash, state)) == Parse(line)
  {
    hide Tokens, Trim, Line, Words, ParseTokens, ReadSocket;
    if IsLineOf(Tokens(Trim(line)), s, hash, state) {
      WordsAccepted(Tokens(Trim(line)), s, hash, state);
      RoundTrip(s, hash, state, "", "");
      assert "" + Line(s, hash, state) + "" == Line(s, hash, state);
    }
  }

  /** The parser never ends in the error of the final decode. */
  lemma DecodeNeverFails(line: string)
    ensures Parse(line) != Err(FingerprintUndecodable)
  {
    hide Tokens, Trim, ReadSocket, CheckFingerprint, ParseStateValue;
    var tokens := Tokens(Trim(line));
    if |tokens| >= 3 && StartsWith(tokens[2], FINGERPRINT_MARKER) {
      FingerprintChecked(tokens[2][|FINGERPRINT_MARKER|..]);
    }
  }
}
