/** Percent-encoding, id validation and the query string of the audit-events screen. */
module UrlQuery {
  import opened Wrappers
  import opened Utf8
  import opened Text
  import Numerals

  // ----- percent-encoding -----

  /** The unreserved characters of RFC 3986, section 2.3. */
  predicate IsUnreserved(b: int)
  {
    || 0x41 <= b <= 0x5A || 0x61 <= b <= 0x7A || 0x30 <= b <= 0x39
    || b == 0x2D || b == 0x5F || b == 0x2E || b == 0x7E
  }

  function HexDigit(n: nat): char
    requires n < 16
  {
    if n < 10 then ('0' as int + n) as char else ('A' as int + n - 10) as char
  }

  function EscapeByte(b: Byte): (e: string)
    ensures 1 <= |e| <= 3
  {
    if IsUnreserved(b) then [b as char] else ['%', HexDigit(b / 16), HexDigit(b % 16)]
  }

  function EscapeBytes(bs: Bytes): string
  {
    if bs == [] then "" else EscapeByte(bs[0]) + EscapeBytes(bs[1..])
  }

  function Escape(s: string): string { EscapeBytes(Encode(s)) }

  method UrlEncode(s: string) returns (out: string)
    ensures out == Escape(s)
  {
    hide Encode, HexDigit;
    var bytes := Encode(s);
    out := "";
    for i := 0 to |bytes|
      invariant out + EscapeBytes(bytes[i..]) == EscapeBytes(bytes)
    {
      var b := bytes[i];
      ghost var rest := EscapeBytes(bytes[i + 1..]);
      assert EscapeBytes(bytes[i..]) == EscapeByte(b) + rest by {
        assert bytes[i..][1..] == bytes[i + 1..];
      }
      assert out + (EscapeByte(b) + rest) == (out + EscapeByte(b)) + rest;
      if IsUnreserved(b) {
        out := out + [b as char];
      } else {
        out := out + ['%', HexDigit(b / 16), HexDigit(b % 16)];
      }
    }
  }

  // ----- percent-decoding -----

  /** RFC 3986, section 2.1. With `form`, a plus sign stands for a space, as HTML forms have it. */
  function UnescapeBytes(s: string, form: bool): Option<Bytes>
  {
    if s == "" then Some([])
    else if s[0] == '%' then
      if |s| < 3 then None
      else
        var hi :- Numerals.HexValue(s[1]);
        var lo :- Numerals.HexValue(s[2]);
        var rest :- UnescapeBytes(s[3..], form);
        Some([hi * 16 + lo] + rest)
    else if s[0] as int >= 0x80 then None
    else
      var rest :- UnescapeBytes(s[1..], form);
      Some([if form && s[0] == '+' then 0x20 else s[0] as int] + rest)
  }

  function Unescape(s: string, form: bool): Option<string>
  {
    var bytes :- UnescapeBytes(s, form);
    Decode(bytes)
  }

  lemma UnescapeFirst(b: Byte, rest: string, form: bool)
    ensures UnescapeBytes(EscapeByte(b) + rest, form) ==
      match UnescapeBytes(rest, form)
      case None => None
      case Some(bs) => Some([b] + bs)
  {
  }

  lemma {:induction false} UnescapeEscapeBytes(bs: Bytes, form: bool)
    ensures UnescapeBytes(EscapeBytes(bs), form) == Some(bs)
  {
    if bs != [] {
      hide UnescapeBytes, EscapeByte;
      UnescapeEscapeBytes(bs[1..], form);
      UnescapeFirst(bs[0], EscapeBytes(bs[1..]), form);
      assert bs == [bs[0]] + bs[1..];
    } else {
      assert EscapeBytes(bs) == "";
    }
  }

  /** Every string comes back, under either reading of the plus sign. */
  lemma UnescapeEscape(s: string, form: bool)
    ensures Unescape(Escape(s), form) == Some(s)
  {
    hide EscapeBytes, UnescapeBytes, Decode, Encode;
    UnescapeEscapeBytes(Encode(s), form);
    DecodeEncode(s);
  }

  lemma EscapeInjective(s: string, t: string)
    requires Escape(s) == Escape(t)
    ensures s == t
  {
    hide Escape, Unescape;
    UnescapeEscape(s, false);
    UnescapeEscape(t, false);
  }

  /** A byte that is a letter, a digit or one of `-_.~` stands for itself, any other becomes a
      percent sign and two upper-case hexadecimal digits. */
  lemma EscapeSpelled(b: Byte)
    ensures EscapeBytes([b]) ==
      if 'A' as int <= b <= 'Z' as int || 'a' as int <= b <= 'z' as int || '0' as int <= b <= '9' as int
         || b == '-' as int || b == '_' as int || b == '.' as int || b == '~' as int
      then [b as char]
      else ['%', "0123456789ABCDEF"[b / 16], "0123456789ABCDEF"[b % 16]]
  {
    hide EscapeBytes;
    EscapeOne(b);
    assert IsUnreserved(b) || EscapeByte(b) == ['%', HexDigit(b / 16), HexDigit(b % 16)];
    HexSpelled(b / 16);
    HexSpelled(b % 16);
  }

  lemma HexSpelled(n: nat)
    requires n < 16
    ensures HexDigit(n) == "0123456789ABCDEF"[n]
  {
  }

  predicate PlainOrEscape(c: char) { IsUnreserved(c as int) || c == '%' }

  lemma {:induction false} EscapedCharacters(bs: Bytes)
    ensures |bs| <= |EscapeBytes(bs)| <= 3 * |bs|
    ensures forall i :: 0 <= i < |EscapeBytes(bs)| ==> PlainOrEscape(EscapeBytes(bs)[i])
  {
    if bs == [] {
    } else {
      EscapedCharacters(bs[1..]);
      assert forall i :: 0 <= i < |EscapeByte(bs[0])| ==> PlainOrEscape(EscapeByte(bs[0])[i]);
    }
  }

  /** Between one and three characters per byte, none of them special in a URL but the escapes. */
  lemma EscapeShape(s: string)
    ensures |Encode(s)| <= |Escape(s)| <= 3 * |Encode(s)|
    ensures forall i :: 0 <= i < |Escape(s)| ==>
      var c := Escape(s)[i];
      'A' <= c <= 'Z' || 'a' <= c <= 'z' || '0' <= c <= '9' || c in {'-', '_', '.', '~', '%'}
  {
    EscapedCharacters(Encode(s));
  }

  predicate AllUnreserved(s: string) { forall i :: 0 <= i < |s| ==> IsUnreserved(s[i] as int) }

  lemma {:induction false} EscapeOfUnreserved(s: string)
    requires AllUnreserved(s)
    ensures Escape(s) == s
  {
    if s != "" {
      hide Encode, EncodeChar, EscapeBytes;
      var b := s[0] as int;
      EscapeOfUnreserved(s[1..]);
      EncodeCons(s[0], s[1..]);
      EncodeCharShape(s[0]);
      EscapeConcat([b], Encode(s[1..]));
      EscapeOne(b);
      assert s == [s[0]] + s[1..];
    } else {
      assert Encode(s) == [];
    }
  }

  lemma EscapeOne(b: Byte)
    ensures EscapeBytes([b]) == EscapeByte(b)
  {
  }

  /** Text is left alone exactly when nothing in it needs escaping. */
  lemma EscapeIdentity(s: string)
    ensures Escape(s) == s <==>
      forall i :: 0 <= i < |s| ==>
        'A' <= s[i] <= 'Z' || 'a' <= s[i] <= 'z' || '0' <= s[i] <= '9' || s[i] in {'-', '_', '.', '~'}
  {
    if AllUnreserved(s) {
      EscapeOfUnreserved(s);
    } else {
      EscapeLonger(s);
    }
  }

  lemma {:induction false} EscapeLonger(s: string)
    requires !AllUnreserved(s)
    ensures |Escape(s)| > |s|
  {
    EncodeCharShape(s[0]);
    var w, rest := EncodeChar(s[0]), Encode(s[1..]);
    EscapeConcat(w, rest);
    EscapedCharacters(w);
    EscapeShape(s[1..]);
    AtLeastOneByte(s[1..]);
    if IsUnreserved(s[0] as int) {
      assert !AllUnreserved(s[1..]) by {
        var i :| 0 <= i < |s| && !IsUnreserved(s[i] as int);
        assert s[1..][i - 1] == s[i];
      }
      EscapeLonger(s[1..]);
    } else {
      FirstEscaped(s[0]);
    }
  }

  lemma FirstEscaped(c: char)
    requires !IsUnreserved(c as int)
    ensures |EscapeBytes(EncodeChar(c))| >= 3
  {
  }

  lemma {:induction false} EscapeConcat(a: Bytes, b: Bytes)
    ensures EscapeBytes(a + b) == EscapeBytes(a) + EscapeBytes(b)
  {
    if a == [] {
      assert a + b == b;
    } else {
      assert (a + b)[1..] == a[1..] + b;
      EscapeConcat(a[1..], b);
    }
  }

  lemma {:induction false} AtLeastOneByte(s: string)
    ensures |Encode(s)| >= |s|
  {
    if s == "" {
    } else {
      AtLeastOneByte(s[1..]);
    }
  }

  // ----- ids in paths -----

  datatype IdError = Empty | TooLong(length: nat) | BadCharacter

  predicate IsIdByte(b: int)
  {
    0x41 <= b <= 0x5A || 0x61 <= b <= 0x7A || 0x30 <= b <= 0x39 || b == 0x5F || b == 0x2D
  }

  const MAX_ID := 64

  function ValidateId(s: string): Result<string, IdError>
  {
    var bytes := Encode(s);
    if bytes == [] then Err(Empty)
    else if |bytes| > MAX_ID then Err(TooLong(|bytes|))
    else if exists i :: 0 <= i < |bytes| && !IsIdByte(bytes[i]) then Err(BadCharacter)
    else Ok(s)
  }

  /** The checks work on bytes; in characters they accept one to 64 of `[A-Za-z0-9_-]`. */
  lemma AcceptedIds(s: string)
    ensures ValidateId(s).Ok? <==>
      1 <= |s| <= 64
      && forall i :: 0 <= i < |s| ==>
           'A' <= s[i] <= 'Z' || 'a' <= s[i] <= 'z' || '0' <= s[i] <= '9' || s[i] == '_' || s[i] == '-'
  {
    AtLeastOneByte(s);
    if forall i :: 0 <= i < |s| ==> IsIdByte(s[i] as int) {
      hide Encode;
      EncodeAscii(s);
    } else {
      var i := NotAnId(s);
    }
  }

  lemma {:induction false} NotAnId(s: string) returns (i: nat)
    requires exists k :: 0 <= k < |s| && !IsIdByte(s[k] as int)
    ensures i < |Encode(s)| && !IsIdByte(Encode(s)[i])
  {
    var w := EncodeChar(s[0]);
    if !IsIdByte(s[0] as int) {
      i := 0;
      assert !IsIdByte(w[0]);
    } else {
      var k :| 0 <= k < |s| && !IsIdByte(s[k] as int);
      assert s[1..][k - 1] == s[k];
      var j := NotAnId(s[1..]);
      i := |w| + j;
    }
  }

  /** Why an id is refused: empty, more than 64 bytes, or a character that does not belong in one. */
  lemma IdRefused(s: string, n: nat)
    ensures ValidateId(s) == Err(Empty) <==> s == ""
    ensures ValidateId(s) == Err(TooLong(n)) <==> n == |Encode(s)| && n > 64
    ensures ValidateId(s) == Err(BadCharacter) <==>
      1 <= |Encode(s)| <= 64
      && exists i :: 0 <= i < |s| && !('A' <= s[i] <= 'Z' || 'a' <= s[i] <= 'z' || '0' <= s[i] <= '9'
                                       || s[i] == '_' || s[i] == '-')
  {
    AtLeastOneByte(s);
    AcceptedIds(s);
    NoBytes();
  }

  /** An accepted id is one path segment as it stands: nothing to escape, no slash, no dot. */
  lemma AcceptedIdIsASegment(s: string)
    requires ValidateId(s).Ok?
    ensures Escape(s) == s && '/' !in s && '.' !in s && s != ""
  {
    AcceptedIds(s);
    EscapeOfUnreserved(s);
  }

  // ----- the audit-events query -----

  type U64 = n: nat | n < 0x1_0000_0000_0000_0000

  type U32 = n: nat | n < 0x1_0000_0000

  datatype Facets = Facets(
    from: Option<string>,
    to: Option<string>,
    kinds: Option<string>,
    domains: Option<string>,
    subject: Option<string>,
    operator: Option<string>,
    q: Option<string>,
    sort: Option<string>,
    dir: Option<string>,
    afterSeq: Option<U64>,
    limit: Option<U32>,
    heartbeats: Option<bool>)

  const BASE := "/api/audit-events"

  /** A text facet as the query carries it: trimmed, and absent when blank. */
  function Given(v: Option<string>): Option<string>
  {
    if v.None? || Trim(v.value) == "" then None else Some(Trim(v.value))
  }

  /** Whitespace around a text facet is taken off, and a facet of nothing else is left out. */
  lemma GivenMeans(before: string, text: string, after: string)
    requires forall i :: 0 <= i < |before| ==> IsWhitespace(before[i])
    requires forall i :: 0 <= i < |after| ==> IsWhitespace(after[i])
    requires text != "" ==> !IsWhitespace(text[0]) && !IsWhitespace(text[|text| - 1])
    ensures Given(None) == None
    ensures Given(Some(before + text + after)) == if text == "" then None else Some(text)
  {
    hide Trim;
    if text == "" {
      TrimBlank(before + text + after);
    } else {
      TrimPadded(before, text, after);
    }
  }

  function PrintBool(b: bool): string { if b then "true" else "false" }

  function PrintNat(n: Option<nat>): Option<string> { if n.None? then None else Some(Numerals.Print(n.value)) }

  type Entry = (string, Option<string>)

  type Pair = (string, string)

  /** The twelve parameters in the order the query names them. */
  function Entries(f: Facets): (es: seq<Entry>)
    ensures |es| == 12
  {
    [("from", Given(f.from)), ("to", Given(f.to)), ("kinds", Given(f.kinds)), ("domains", Given(f.domains)),
     ("subject", Given(f.subject)), ("operator", Given(f.operator)), ("q", Given(f.q)), ("sort", Given(f.sort)),
     ("dir", Given(f.dir)), ("after_seq", PrintNat(f.afterSeq)), ("limit", PrintNat(f.limit)),
     ("heartbeats", if f.heartbeats.None? then None else Some(PrintBool(f.heartbeats.value)))]
  }

  /** The parameters that are present. */
  function Present(es: seq<Entry>): seq<Pair>
  {
    if es == [] then []
    else (if es[0].1.Some? then [(es[0].0, es[0].1.value)] else []) + Present(es[1..])
  }

  function Param(p: Pair): string { p.0 + "=" + Escape(p.1) }

  function Params(ps: seq<Pair>): (r: seq<string>)
    ensures |r| == |ps| && forall i :: 0 <= i < |ps| ==> r[i] == Param(ps[i])
  {
    if ps == [] then [] else [Param(ps[0])] + Params(ps[1..])
  }

  function PathFor(ps: seq<Pair>): string
  {
    if ps == [] then BASE else BASE + "?" + Join(Params(ps), '&')
  }

  /** The path as it is written: the fixed part alone, or a question mark and the parameters, each a
      key, an equals sign and the encoded value. */
  lemma PathSpelled(ps: seq<Pair>)
    ensures ps == [] ==> PathFor(ps) == "/api/audit-events"
    ensures ps != [] ==>
      var params := seq(|ps|, i requires 0 <= i < |ps| => ps[i].0 + "=" + Escape(ps[i].1));
      PathFor(ps) == "/api/audit-events?" + Join(params, '&')
  {
    hide Join, Escape;
    assert Params(ps) == seq(|ps|, i requires 0 <= i < |ps| => ps[i].0 + "=" + Escape(ps[i].1));
    assert BASE + "?" == "/api/audit-events?";
  }

  lemma Regroup(a: seq<Pair>, b: seq<Pair>, c: seq<Pair>)
    ensures a + (b + c) == a + b + c
  {
  }

  lemma {:induction false} PresentAppend(es: seq<Entry>, e: Entry)
    ensures Present(es + [e]) == Present(es) + if e.1.Some? then [(e.0, e.1.value)] else []
  {
    if es == [] {
      assert es + [e] == [e] && [e][1..] == [];
    } else {
      assert (es + [e])[1..] == es[1..] + [e] && (es + [e])[0] == es[0];
      PresentAppend(es[1..], e);
      Regroup(if es[0].1.Some? then [(es[0].0, es[0].1.value)] else [], Present(es[1..]),
              if e.1.Some? then [(e.0, e.1.value)] else []);
    }
  }

  lemma ParamsAppend(ps: seq<Pair>, p: Pair)
    ensures Params(ps + [p]) == Params(ps) + [Param(p)]
  {
  }

  /** One more of the entries `es` is done: what its parameter adds. */
  lemma OneMoreEntry(es: seq<Entry>, k: nat)
    requires k < |es|
    ensures Params(Present(es[..k + 1])) ==
      Params(Present(es[..k])) + if es[k].1.Some? then [Param((es[k].0, es[k].1.value))] else []
  {
    hide Present, Params, Param;
    assert es[..k + 1] == es[..k] + [es[k]];
    PresentAppend(es[..k], es[k]);
    if es[k].1.Some? {
      ParamsAppend(Present(es[..k]), (es[k].0, es[k].1.value));
    } else {
      assert Present(es[..k]) + [] == Present(es[..k]);
    }
  }

  /** `push_str`: one text facet, or nothing when it is absent or blank. */
  method PushText(params: seq<string>, key: string, v: Option<string>, ghost es: seq<Entry>, ghost k: nat)
      returns (r: seq<string>)
    requires k < |es| && es[k] == (key, Given(v)) && params == Params(Present(es[..k]))
    ensures r == Params(Present(es[..k + 1]))
  {
    hide Present, Params, Escape;
    OneMoreEntry(es, k);
    r := params;
    if v.Some? && Trim(v.value) != "" {
      var text := UrlEncode(Trim(v.value));
      r := params + [key + "=" + text];
    }
  }

  /** A parameter pushed as printed, with nothing in it to escape. */
  method PushPlain(params: seq<string>, key: string, v: Option<string>, ghost es: seq<Entry>, ghost k: nat)
      returns (r: seq<string>)
    requires k < |es| && es[k] == (key, v) && params == Params(Present(es[..k]))
    requires v.Some? ==> AllUnreserved(v.value)
    ensures r == Params(Present(es[..k + 1]))
  {
    hide Present, Params, Escape;
    OneMoreEntry(es, k);
    r := params;
    if v.Some? {
      EscapeOfUnreserved(v.value);
      r := params + [key + "=" + v.value];
    }
  }

  lemma PrintedUnreserved(n: nat)
    ensures AllUnreserved(Numerals.Print(n))
  {
  }

  method TextParams(f: Facets) returns (params: seq<string>)
    ensures params == Params(Present(Entries(f)[..9]))
  {
    hide Given, Present, Params, PrintBool, PrintNat;
    ghost var es := Entries(f);
    params := [];
    NothingPresent();
    params := PushText(params, "from", f.from, es, 0);
    params := PushText(params, "to", f.to, es, 1);
    params := PushText(params, "kinds", f.kinds, es, 2);
    params := PushText(params, "domains", f.domains, es, 3);
    params := PushText(params, "subject", f.subject, es, 4);
    params := PushText(params, "operator", f.operator, es, 5);
    params := PushText(params, "q", f.q, es, 6);
    params := PushText(params, "sort", f.sort, es, 7);
    params := PushText(params, "dir", f.dir, es, 8);
  }

  /** The path `list_audit_events` asks for. */
  method AuditEventsPath(f: Facets) returns (path: string)
    ensures path == PathFor(Present(Entries(f)))
  {
    hide Given, Present, Params, PrintBool, AllUnreserved, Numerals.Print;
    ghost var es := Entries(f);
    var params := TextParams(f);
    if f.afterSeq.Some? { PrintedUnreserved(f.afterSeq.value); }
    params := PushPlain(params, "after_seq", PrintNat(f.afterSeq), es, 9);
    if f.limit.Some? { PrintedUnreserved(f.limit.value); }
    params := PushPlain(params, "limit", PrintNat(f.limit), es, 10);
    var flag := if f.heartbeats.None? then None else Some(PrintBool(f.heartbeats.value));
    FlagUnreserved();
    params := PushPlain(params, "heartbeats", flag, es, 11);
    assert es[..12] == es;
    path := if params == [] then BASE else BASE + "?" + Join(params, '&');
  }

  lemma FlagUnreserved()
    ensures AllUnreserved(PrintBool(true)) && AllUnreserved(PrintBool(false))
  {
  }

  lemma NothingPresent()
    ensures Params(Present([])) == []
  {
  }

  // ----- reading the query back -----

  function ReadParam(piece: string, form: bool): Option<Pair>
  {
    var cut := Find(piece, '=');
    var key :- Unescape(if cut.None? then piece else piece[..cut.value], form);
    var value :- Unescape(if cut.None? then "" else piece[cut.value + 1..], form);
    Some((key, value))
  }

  function ReadParams(pieces: seq<string>, form: bool): Option<seq<Pair>>
  {
    if pieces == [] then Some([])
    else
      var first :- ReadParam(pieces[0], form);
      var rest :- ReadParams(pieces[1..], form);
      Some([first] + rest)
  }

  /** What follows the first question mark, split at `&`, each piece split at its first `=`. */
  function ReadQuery(path: string, form: bool): Option<seq<Pair>>
  {
    match Find(path, '?')
    case None => Some([])
    case Some(i) => ReadParams(Split(path[i + 1..], '&'), form)
  }

  lemma ParamRecovered(p: Pair, form: bool)
    requires AllUnreserved(p.0)
    ensures ReadParam(Param(p), form) == Some(p) && '&' !in Param(p)
  {
    hide Escape, Unescape, Find;
    var v := Escape(p.1);
    assert p.0 + "=" + v == p.0 + ['='] + v;
    FindAfter(p.0, '=', v);
    assert Param(p)[..|p.0|] == p.0 && Param(p)[|p.0| + 1..] == v;
    UnescapeEscape(p.1, form);
    UnescapeEscape(p.0, form);
    EscapeOfUnreserved(p.0);
    EscapeShape(p.1);
  }

  lemma {:induction false} ParamsRecovered(ps: seq<Pair>, form: bool)
    requires forall p :: p in ps ==> AllUnreserved(p.0)
    ensures ReadParams(Params(ps), form) == Some(ps)
    ensures forall s :: s in Params(ps) ==> '&' !in s
  {
    if ps == [] {
    } else {
      hide ReadParam, Param;
      ParamRecovered(ps[0], form);
      ParamsRecovered(ps[1..], form);
      assert ps == [ps[0]] + ps[1..];
      assert Params(ps)[1..] == Params(ps[1..]);
    }
  }

  lemma QueryRecovered(ps: seq<Pair>, form: bool)
    requires forall p :: p in ps ==> AllUnreserved(p.0)
    ensures ReadQuery(PathFor(ps), form) == Some(ps)
  {
    hide ReadParams, Params, Find;
    assert '?' !in BASE;
    if ps != [] {
      var query := Join(Params(ps), '&');
      assert BASE + "?" + query == BASE + ['?'] + query;
      FindAfter(BASE, '?', query);
      assert PathFor(ps)[|BASE| + 1..] == query;
      ParamsRecovered(ps, form);
      SplitJoin(Params(ps), '&');
    }
  }

  lemma KeysArePlain(f: Facets, p: Pair)
    requires p in Present(Entries(f))
    ensures AllUnreserved(p.0)
  {
    var i := PresentFrom(Entries(f), p);
    EntryKeys(f);
  }

  lemma {:induction false} PresentFrom(es: seq<Entry>, p: Pair) returns (i: nat)
    requires p in Present(es)
    ensures i < |es| && es[i] == (p.0, Some(p.1))
  {
    if es[0] == (p.0, Some(p.1)) {
      i := 0;
    } else {
      i := PresentFrom(es[1..], p);
      i := i + 1;
    }
  }

  lemma EntryKeys(f: Facets)
    ensures forall i :: 0 <= i < 12 ==> AllUnreserved(Entries(f)[i].0)
    ensures DistinctKeys(Entries(f))
  {
    hide Given, PrintNat, PrintBool;
    var es := Entries(f);
    forall i, j | 0 <= i < j < 12
      ensures es[i].0 != es[j].0
    {
      assert |es[i].0| != |es[j].0| || es[i].0[0] != es[j].0[0];
    }
  }

  predicate DistinctKeys(es: seq<Entry>) { forall i, j :: 0 <= i < j < |es| ==> es[i].0 != es[j].0 }

  /** The value of the first parameter called `key`. */
  function Lookup(ps: seq<Pair>, key: string): Option<string>
  {
    if ps == [] then None else if ps[0].0 == key then Some(ps[0].1) else Lookup(ps[1..], key)
  }

  lemma {:induction false} LookupAbsent(es: seq<Entry>, key: string)
    requires forall i :: 0 <= i < |es| ==> es[i].0 != key
    ensures Lookup(Present(es), key) == None
  {
    if es == [] {
    } else {
      LookupAbsent(es[1..], key);
      assert es[0].1.Some? ==> Present(es)[1..] == Present(es[1..]);
      assert es[0].1.None? ==> Present(es) == Present(es[1..]);
    }
  }

  lemma {:induction false} LookupPresent(es: seq<Entry>, i: nat)
    requires DistinctKeys(es) && i < |es|
    ensures Lookup(Present(es), es[i].0) == es[i].1
  {
    assert es[0].1.Some? ==> Present(es)[1..] == Present(es[1..]);
    assert es[0].1.None? ==> Present(es) == Present(es[1..]);
    if i == 0 {
      LookupAbsent(es[1..], es[0].0);
    } else {
      assert es[1..][i - 1] == es[i];
      LookupPresent(es[1..], i - 1);
    }
  }

  /** Reading a number back: absent, a number up to `max`, or unreadable. */
  function ReadNat(text: Option<string>, max: nat): (r: Option<Option<nat>>)
    ensures r.Some? && r.value.Some? ==> r.value.value <= max
  {
    if text.None? then Some(None)
    else
      var n :- Numerals.Parse(text.value, max);
      Some(Some(n))
  }

  function ReadBool(text: Option<string>): Option<Option<bool>>
  {
    if text.None? then Some(None)
    else if text.value == "true" then Some(Some(true))
    else if text.value == "false" then Some(Some(false))
    else None
  }

  function ReadFacets(path: string, form: bool): Option<Facets>
  {
    var ps :- ReadQuery(path, form);
    var afterSeq :- ReadNat(Lookup(ps, "after_seq"), 0xFFFF_FFFF_FFFF_FFFF);
    var limit :- ReadNat(Lookup(ps, "limit"), 0xFFFF_FFFF);
    var heartbeats :- ReadBool(Lookup(ps, "heartbeats"));
    Some(Facets(Lookup(ps, "from"), Lookup(ps, "to"), Lookup(ps, "kinds"), Lookup(ps, "domains"),
                Lookup(ps, "subject"), Lookup(ps, "operator"), Lookup(ps, "q"), Lookup(ps, "sort"),
                Lookup(ps, "dir"), afterSeq, limit, heartbeats))
  }

  /** The facets with every text trimmed and blank texts dropped. */
  function Normal(f: Facets): Facets
  {
    f.(from := Given(f.from), to := Given(f.to), kinds := Given(f.kinds), domains := Given(f.domains),
       subject := Given(f.subject), operator := Given(f.operator), q := Given(f.q), sort := Given(f.sort),
       dir := Given(f.dir))
  }

  lemma NatRecovered(n: Option<nat>, max: nat)
    requires n.Some? ==> n.value <= max
    ensures ReadNat(PrintNat(n), max) == Some(n)
  {
    if n.Some? { Numerals.ParsePrint(n.value, max); }
  }

  lemma EveryEntryFound(f: Facets)
    ensures forall i: nat :: i < 12 ==> Lookup(Present(Entries(f)), Entries(f)[i].0) == Entries(f)[i].1
  {
    hide Entries, Present, Lookup;
    EntryKeys(f);
    forall i: nat | i < 12
      ensures Lookup(Present(Entries(f)), Entries(f)[i].0) == Entries(f)[i].1
    {
      LookupPresent(Entries(f), i);
    }
  }

  lemma FieldsFound(f: Facets)
    ensures var ps := Present(Entries(f));
      && Lookup(ps, "from") == Given(f.from) && Lookup(ps, "to") == Given(f.to)
      && Lookup(ps, "kinds") == Given(f.kinds) && Lookup(ps, "domains") == Given(f.domains)
      && Lookup(ps, "subject") == Given(f.subject) && Lookup(ps, "operator") == Given(f.operator)
      && Lookup(ps, "q") == Given(f.q) && Lookup(ps, "sort") == Given(f.sort) && Lookup(ps, "dir") == Given(f.dir)
      && Lookup(ps, "after_seq") == PrintNat(f.afterSeq) && Lookup(ps, "limit") == PrintNat(f.limit)
      && Lookup(ps, "heartbeats") == if f.heartbeats.None? then None else Some(PrintBool(f.heartbeats.value))
  {
    hide Present, Given, PrintNat, PrintBool, Lookup;
    EveryEntryFound(f);
    var es := Entries(f);
    assert es[0].0 == "from" && es[1].0 == "to" && es[2].0 == "kinds" && es[3].0 == "domains";
    assert es[4].0 == "subject" && es[5].0 == "operator" && es[6].0 == "q" && es[7].0 == "sort";
    assert es[8].0 == "dir" && es[9].0 == "after_seq" && es[10].0 == "limit" && es[11].0 == "heartbeats";
  }

  /** Splitting the query at `&`, each parameter at its first `=`, and percent-decoding recovers
      exactly the facets that were given, in order, and from them every field. */
  lemma FacetsRecovered(f: Facets, form: bool)
    ensures ReadQuery(PathFor(Present(Entries(f))), form) == Some(Present(Entries(f)))
    ensures ReadFacets(PathFor(Present(Entries(f))), form) == Some(Normal(f))
  {
    hide ReadQuery, PathFor, Present, Entries, Given, PrintNat, ReadNat, Lookup;
    forall p | p in Present(Entries(f))
      ensures AllUnreserved(p.0)
    {
      KeysArePlain(f, p);
    }
    QueryRecovered(Present(Entries(f)), form);
    FieldsFound(f);
    NatRecovered(f.afterSeq, 0xFFFF_FFFF_FFFF_FFFF);
    NatRecovered(f.limit, 0xFFFF_FFFF);
  }
}
