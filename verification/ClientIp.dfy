/**
  * Which client a request comes from: a nested scan over `X-Forwarded-For`
  * lines and their comma-separated entries, both from the right, against a
  * specification over one flat list of entries.
  */
module ClientIp {
  import opened Types

  // ----- Addresses --------------------------------------------------------

  type Bits32 = b: int | 0 <= b < 0x1_0000_0000
  type Bits128 = b: int | 0 <= b < 0x1_0000_0000_0000_0000_0000_0000_0000_0000

  datatype IpAddr = V4(v4: Bits32) | V6(v6: Bits128)

  /** IPv4-mapped IPv6 addresses (`::ffff:a.b.c.d`) become the IPv4 address. */
  function ToCanonical(ip: IpAddr): IpAddr {
    match ip
    case V4(_) => ip
    case V6(b) => if b / 0x1_0000_0000 == 0xFFFF then V4(b % 0x1_0000_0000) else ip
  }

  /** Exactly the IPv4-mapped addresses of section 2.5.5.2 of RFC 4291 change, and each becomes its IPv4 address. */
  lemma CanonicalExactly(ip: IpAddr)
    ensures ip.V4? ==> ToCanonical(ip) == ip
    ensures ip.V6? && 0xFFFF_0000_0000 <= ip.v6 < 0x1_0000_0000_0000 ==>
      ToCanonical(ip) == V4(ip.v6 - 0xFFFF_0000_0000)
    ensures ip.V6? && !(0xFFFF_0000_0000 <= ip.v6 < 0x1_0000_0000_0000) ==> ToCanonical(ip) == ip
  {
  }

  lemma CanonicalTwice(ip: IpAddr)
    ensures ToCanonical(ToCanonical(ip)) == ToCanonical(ip)
  {
  }

  datatype ForwardedForError = Missing | NotAnIpAddress(text: string)

  /** One header line: text, or bytes that are not visible ASCII, shown escaped. */
  datatype HeaderLine = Text(text: string) | NotText(escaped: string)

  // ----- Text -------------------------------------------------------------

  predicate IsBlank(c: char) {
    c == ' ' || c == '\t'
  }

  function TrimStart(s: string): string {
    if s != "" && IsBlank(s[0]) then TrimStart(s[1..]) else s
  }

  function TrimEnd(s: string): string {
    if s != "" && IsBlank(s[|s| - 1]) then TrimEnd(s[..|s| - 1]) else s
  }

  /** The only blanks header text can hold are spaces and tabs. */
  function Trim(s: string): string {
    TrimEnd(TrimStart(s))
  }

  /** The pieces between commas, in order; always at least one. */
  function Split(s: string): (pieces: seq<string>)
    ensures |pieces| > 0
  {
    if s == "" then [""]
    else
      var pieces := Split(s[..|s| - 1]);
      var last := s[|s| - 1];
      if last == ',' then pieces + [""]
      else pieces[..|pieces| - 1] + [pieces[|pieces| - 1] + [last]]
  }

  // ----- The flat list ----------------------------------------------------

  /** An entry of the header, or a line that could not be read. */
  datatype Token = Named(entry: string) | Unreadable(escaped: string)

  /** The entries among `pieces`: trimmed, empty ones left out. */
  function EntriesAmong(pieces: seq<string>): seq<Token> {
    if pieces == [] then []
    else
      var rest := EntriesAmong(pieces[..|pieces| - 1]);
      var piece := Trim(pieces[|pieces| - 1]);
      if piece == "" then rest else rest + [Named(piece)]
  }

  function TokensOf(line: HeaderLine): seq<Token> {
    match line
    case Text(text) => EntriesAmong(Split(text))
    case NotText(escaped) => [Unreadable(escaped)]
  }

  /** All lines as one list, in order. */
  function Flat(lines: seq<HeaderLine>): seq<Token> {
    if lines == [] then [] else Flat(lines[..|lines| - 1]) + TokensOf(lines[|lines| - 1])
  }

  // ----- Trusted proxies --------------------------------------------------

  /** What one token says: a trusted proxy, the client, or no address at all. */
  datatype Verdict = Proxy(proxy: IpAddr) | Client(client: IpAddr) | NoAddress(text: string)

  /** The trusted networks, as membership tests, and the address parser. */
  datatype TrustedProxies = TrustedProxies(networks: seq<IpAddr -> bool>, parse: string -> Option<IpAddr>) {

    predicate Contains(ip: IpAddr) {
      exists k :: 0 <= k < |networks| && networks[k](ToCanonical(ip))
    }

    function Judge(token: Token): Verdict {
      match token
      case Unreadable(escaped) => NoAddress(escaped)
      case Named(entry) =>
        match parse(entry)
        case None => NoAddress(entry)
        case Some(ip) => if Contains(ip) then Proxy(ToCanonical(ip)) else Client(ToCanonical(ip))
    }

    /** The rightmost token that is not a trusted proxy. */
    function Decisive(tokens: seq<Token>): Option<nat> {
      if tokens == [] then None
      else if !Judge(tokens[|tokens| - 1]).Proxy? then Some(|tokens| - 1)
      else Decisive(tokens[..|tokens| - 1])
    }

    /** The rightmost token that is no trusted proxy decides; else the leftmost proxy; else `otherwise`. */
    function Answer(tokens: seq<Token>, otherwise: Option<IpAddr>): Result<IpAddr, ForwardedForError> {
      match Decisive(tokens)
      case Some(k) =>
        if k < |tokens| then Verdicted(Judge(tokens[k])) else Err(Missing)
      case None =>
        if tokens != [] then Verdicted(Judge(tokens[0]))
        else if otherwise.Some? then Ok(otherwise.value)
        else Err(Missing)
    }

    static function Verdicted(v: Verdict): Result<IpAddr, ForwardedForError> {
      match v
      case Proxy(ip) => Ok(ip)
      case Client(ip) => Ok(ip)
      case NoAddress(text) => Err(NotAnIpAddress(text))
    }

    /** The specification: an untrusted peer is the client; behind a proxy the flat list decides. */
    function ClientOf(peer: IpAddr, lines: seq<HeaderLine>): Result<IpAddr, ForwardedForError> {
      if !Contains(peer) then Ok(ToCanonical(peer)) else Answer(Flat(lines), None)
    }

    lemma {:induction false} DecisiveIsRightmost(tokens: seq<Token>)
      ensures match Decisive(tokens)
        case Some(k) =>
          k < |tokens| && !Judge(tokens[k]).Proxy? && forall i :: k < i < |tokens| ==> Judge(tokens[i]).Proxy?
        case None => forall i :: 0 <= i < |tokens| ==> Judge(tokens[i]).Proxy?
      decreases |tokens|
    {
      if tokens != [] && Judge(tokens[|tokens| - 1]).Proxy? {
        DecisiveIsRightmost(tokens[..|tokens| - 1]);
      }
    }

    /** One step of the scan: the last token decides, or is remembered as the leftmost proxy so far. */
    lemma AnswerStep(tokens: seq<Token>, token: Token, otherwise: Option<IpAddr>)
      ensures Answer(tokens + [token], otherwise) ==
        match Judge(token)
        case Proxy(ip) => Answer(tokens, Some(ip))
        case _ => Verdicted(Judge(token))
    {
      assert (tokens + [token])[..|tokens|] == tokens;
      DecisiveIsRightmost(tokens);
    }

    /** A line that is not text ends the scan; any other one puts its own entries last. */
    lemma LineStep(lines: seq<HeaderLine>, i: nat, otherwise: Option<IpAddr>)
      requires i < |lines|
      ensures match lines[i]
        case NotText(escaped) => Answer(Flat(lines[..i + 1]), otherwise) == Err(NotAnIpAddress(escaped))
        case Text(text) =>
          Answer(Flat(lines[..i + 1]), otherwise) == Answer(Flat(lines[..i]) + EntriesAmong(Split(text)), otherwise)
    {
      assert lines[..i + 1] == lines[..i] + [lines[i]];
      FlatSnoc(lines[..i], lines[i]);
      if lines[i].NotText? {
        AnswerStep(Flat(lines[..i]), Unreadable(lines[i].escaped), otherwise);
      }
    }

    /** A blank piece is skipped; any other one is judged. */
    lemma PieceStep(left: seq<Token>, pieces: seq<string>, j: nat, otherwise: Option<IpAddr>)
      requires j < |pieces|
      ensures Answer(left + EntriesAmong(pieces[..j + 1]), otherwise) ==
        if Trim(pieces[j]) == "" then Answer(left + EntriesAmong(pieces[..j]), otherwise)
        else match Judge(Named(Trim(pieces[j])))
          case Proxy(ip) => Answer(left + EntriesAmong(pieces[..j]), Some(ip))
          case verdict => Verdicted(verdict)
    {
      hide Answer, EntriesAmong, Trim;
      assert pieces[..j + 1] == pieces[..j] + [pieces[j]];
      EntriesSnoc(pieces[..j], pieces[j]);
      var before := left + EntriesAmong(pieces[..j]);
      Regroup(left, EntriesAmong(pieces[..j]), EntriesOf(pieces[j]));
      if Trim(pieces[j]) == "" {
        assert before + [] == before;
      } else {
        AnswerStep(before, Named(Trim(pieces[j])), otherwise);
      }
    }

    lemma NothingLeft(lines: seq<HeaderLine>, otherwise: Option<IpAddr>)
      ensures Answer(Flat(lines[..0]), otherwise) == if otherwise.Some? then Ok(otherwise.value) else Err(Missing)
    {
    }

    lemma NoPieceLeft(left: seq<Token>, pieces: seq<string>)
      ensures left + EntriesAmong(pieces[..0]) == left
    {
    }

    /** The scan itself. */
    method ClientIp(peer: IpAddr, lines: seq<HeaderLine>) returns (client: Result<IpAddr, ForwardedForError>)
      ensures client == ClientOf(peer, lines)
    {
      hide Answer, Flat, EntriesAmong, Trim, Split, Contains, ToCanonical;
      var trusted := IsTrusted(peer);
      if !trusted {
        return Ok(ToCanonical(peer));
      }
      var leftmostProxy: Option<IpAddr> := None;
      var i := |lines|;
      assert lines[..i] == lines;
      while i > 0
        invariant 0 <= i <= |lines|
        invariant ClientOf(peer, lines) == Answer(Flat(lines[..i]), leftmostProxy)
      {
        i := i - 1;
        LineStep(lines, i, leftmostProxy);
        if lines[i].NotText? {
          return Err(NotAnIpAddress(lines[i].escaped));
        }
        ghost var left := Flat(lines[..i]);
        var pieces := Split(lines[i].text);
        var j := |pieces|;
        assert pieces[..j] == pieces;
        while j > 0
          invariant 0 <= j <= |pieces|
          invariant ClientOf(peer, lines) == Answer(left + EntriesAmong(pieces[..j]), leftmostProxy)
        {
          j := j - 1;
          PieceStep(left, pieces, j, leftmostProxy);
          var entry := Trim(pieces[j]);
          if entry != "" {
            var parsed := parse(entry);
            if parsed.None? {
              return Err(NotAnIpAddress(entry));
            }
            var proxy := IsTrusted(parsed.value);
            if !proxy {
              return Ok(ToCanonical(parsed.value));
            }
            leftmostProxy := Some(ToCanonical(parsed.value));
          }
        }
        NoPieceLeft(left, pieces);
      }
      NothingLeft(lines, leftmostProxy);
      client := if leftmostProxy.Some? then Ok(leftmostProxy.value) else Err(Missing);
    }

    method IsTrusted(ip: IpAddr) returns (trusted: bool)
      ensures trusted == Contains(ip)
    {
      var canonical := ToCanonical(ip);
      var k := 0;
      while k < |networks|
        invariant 0 <= k <= |networks|
        invariant forall j :: 0 <= j < k ==> !networks[j](canonical)
      {
        if networks[k](canonical) {
          return true;
        }
        k := k + 1;
      }
      return false;
    }

    // ----- What the specification promises --------------------------------

    /** A trusted proxy's entry: it parses, and some network holds its canonical form. */
    ghost predicate IsProxy(token: Token) {
      && token.Named? && parse(token.entry).Some?
      && exists j :: 0 <= j < |networks| && networks[j](ToCanonical(parse(token.entry).value))
    }

    lemma ProxiesAreJudgedSo(token: Token)
      ensures Judge(token).Proxy? <==>
        && token.Named? && parse(token.entry).Some?
        && exists j :: 0 <= j < |networks| && networks[j](ToCanonical(parse(token.entry).value))
    {
    }

    /** A peer on no trusted network is the client, whatever the header says. */
    lemma UntrustedPeerIsTheClient(peer: IpAddr, lines: seq<HeaderLine>)
      requires forall j :: 0 <= j < |networks| ==> !networks[j](ToCanonical(peer))
      ensures ClientOf(peer, lines) == Ok(ToCanonical(peer))
    {
    }

    /** Where the scan stops: at the rightmost entry that is no trusted proxy's. */
    lemma StopsAt(tokens: seq<Token>, k: nat)
      requires k < |tokens| && !IsProxy(tokens[k])
      requires forall i :: k < i < |tokens| ==> IsProxy(tokens[i])
      ensures Answer(tokens, None) == Verdicted(Judge(tokens[k])) && !Judge(tokens[k]).Proxy?
    {
      DecisiveIsRightmost(tokens);
      ProxiesAreJudgedSo(tokens[k]);
      forall i | k < i < |tokens|
        ensures Judge(tokens[i]).Proxy?
      {
        ProxiesAreJudgedSo(tokens[i]);
      }
      hide Decisive, Judge;
    }

    /** Behind a trusted peer, the rightmost address on no trusted network is the client. */
    lemma RightmostUntrustedIsTheClient(peer: IpAddr, lines: seq<HeaderLine>, k: nat, ip: IpAddr)
      requires exists j :: 0 <= j < |networks| && networks[j](ToCanonical(peer))
      requires k < |Flat(lines)| && Flat(lines)[k].Named? && parse(Flat(lines)[k].entry) == Some(ip)
      requires forall j :: 0 <= j < |networks| ==> !networks[j](ToCanonical(ip))
      requires forall i :: k < i < |Flat(lines)| ==> IsProxy(Flat(lines)[i])
      ensures ClientOf(peer, lines) == Ok(ToCanonical(ip))
    {
      StopsAt(Flat(lines), k);
      hide Flat, Answer, ToCanonical;
    }

    /** An entry that is no address, or a line that is no text, is the error if the scan gets to it. */
    lemma BadEntryIsTheError(peer: IpAddr, lines: seq<HeaderLine>, k: nat)
      requires exists j :: 0 <= j < |networks| && networks[j](ToCanonical(peer))
      requires k < |Flat(lines)| && (Flat(lines)[k].Named? ==> parse(Flat(lines)[k].entry).None?)
      requires forall i :: k < i < |Flat(lines)| ==> IsProxy(Flat(lines)[i])
      ensures ClientOf(peer, lines) == Err(NotAnIpAddress(
        match Flat(lines)[k] case Named(entry) => entry case Unreadable(escaped) => escaped))
    {
      StopsAt(Flat(lines), k);
      hide Flat, Answer, ToCanonical;
    }

    /** If every entry is a trusted proxy's, the leftmost one is the client; without any entry there is none. */
    lemma LeftmostProxyIsTheClient(peer: IpAddr, lines: seq<HeaderLine>)
      requires exists j :: 0 <= j < |networks| && networks[j](ToCanonical(peer))
      requires forall i :: 0 <= i < |Flat(lines)| ==> IsProxy(Flat(lines)[i])
      ensures Flat(lines) == [] ==> ClientOf(peer, lines) == Err(Missing)
      ensures Flat(lines) != [] ==>
        && Flat(lines)[0].Named? && parse(Flat(lines)[0].entry).Some?
        && ClientOf(peer, lines) == Ok(ToCanonical(parse(Flat(lines)[0].entry).value))
    {
      hide Flat, Decisive, ToCanonical;
      var tokens := Flat(lines);
      DecisiveIsRightmost(tokens);
      forall i | 0 <= i < |tokens|
        ensures Judge(tokens[i]).Proxy?
      {
        ProxiesAreJudgedSo(tokens[i]);
      }
      if tokens != [] {
        assert IsProxy(tokens[0]);
      }
    }

    /** Every address returned is in canonical form, however it was found. */
    lemma AnswersAreCanonical(peer: IpAddr, lines: seq<HeaderLine>)
      ensures ClientOf(peer, lines).Ok? ==> ToCanonical(ClientOf(peer, lines).value) == ClientOf(peer, lines).value
    {
      hide Decisive, Flat, Judge, ToCanonical, Verdicted;
      forall token: Token
        ensures Verdicted(Judge(token)).Ok? ==>
          ToCanonical(Verdicted(Judge(token)).value) == Verdicted(Judge(token)).value
      {
        VerdictsAreCanonical(token);
      }
      CanonicalTwice(peer);
    }

    lemma VerdictsAreCanonical(token: Token)
      ensures Verdicted(Judge(token)).Ok? ==>
        ToCanonical(Verdicted(Judge(token)).value) == Verdicted(Judge(token)).value
    {
      hide Contains;
    }

    /** A peer that a dual-stack listener reports in IPv4-mapped form is judged as its IPv4 address. */
    lemma MappedPeersAreTheSame(v4: Bits32, lines: seq<HeaderLine>)
      ensures ClientOf(V6(0xFFFF_0000_0000 + v4), lines) == ClientOf(V4(v4), lines)
    {
      assert ToCanonical(V6(0xFFFF_0000_0000 + v4)) == V4(v4);
    }

    lemma {:induction false} DecisiveAppend(left: seq<Token>, right: seq<Token>)
      requires Decisive(right).Some?
      ensures Decisive(left + right) == Some(|left| + Decisive(right).value)
      decreases |right|
    {
      var init, last := right[..|right| - 1], right[|right| - 1];
      assert (left + right)[..|left + right| - 1] == left + init;
      if Judge(last).Proxy? {
        DecisiveAppend(left, init);
      }
    }

    lemma DecidedOnTheRight(left: seq<Token>, right: seq<Token>, otherwise: Option<IpAddr>)
      requires Decisive(right).Some?
      ensures Answer(left + right, otherwise) == Answer(right, otherwise)
    {
      DecisiveAppend(left, right);
      DecisiveIsRightmost(right);
      hide Decisive;
    }

    /**
      * Once a line and those right of it decide, nothing left of the deciding
      * entry matters: neither which lines stand before that line, readable or
      * not, nor what text a client put before it in the same line.
      */
    lemma NothingLeftOfTheClientMatters(
        peer: IpAddr, left: seq<HeaderLine>, left': seq<HeaderLine>,
        forged: string, text: string, right: seq<HeaderLine>)
      requires Decisive(Flat([Text(text)] + right)).Some?
      ensures ClientOf(peer, left' + [Text(forged + "," + text)] + right) == ClientOf(peer, left + [Text(text)] + right)
    {
      hide Decisive, Flat, TokensOf, Answer;
      var known := Flat([Text(text)] + right);
      LinesBefore(left, text, right);
      DecidedOnTheRight(Flat(left), known, None);

      var whole := forged + "," + text;
      LinesBefore(left', whole, right);
      FlatConcat([Text(whole)], right);
      FlatConcat([Text(text)], right);
      FlatOne(Text(whole));
      FlatOne(Text(text));
      CommaSplitsLines(forged, "", text);
      assert forged + "," + "" + text == whole;
      Regroup(TokensOf(Text(forged)), TokensOf(Text(text)), Flat(right));
      Regroup(Flat(left'), TokensOf(Text(forged)), known);
      DecidedOnTheRight(Flat(left') + TokensOf(Text(forged)), known, None);
    }

    lemma LinesBefore(left: seq<HeaderLine>, text: string, right: seq<HeaderLine>)
      ensures Flat(left + [Text(text)] + right) == Flat(left) + Flat([Text(text)] + right)
    {
      FlatConcat(left, [Text(text)] + right);
      assert left + [Text(text)] + right == left + ([Text(text)] + right);
    }

    /** Splitting a list of entries across lines changes nothing: one line with commas gives the same client. */
    lemma LinesAreOneList(peer: IpAddr, texts: seq<string>, blanks: string)
      requires forall c :: c in blanks ==> IsBlank(c)
      ensures ClientOf(peer, Lines(texts)) == ClientOf(peer, [Text(Join(texts, "," + blanks))])
    {
      JoinedLinesAreFlat(texts, blanks);
      FlatOne(Text(Join(texts, "," + blanks)));
    }
  }

  // ----- Facts about text -------------------------------------------------

  function Lines(texts: seq<string>): seq<HeaderLine> {
    seq(|texts|, i requires 0 <= i < |texts| => Text(texts[i]))
  }

  /** One line from several, as section 5.3 of RFC 9110 combines them. */
  function Join(texts: seq<string>, separator: string): string {
    if texts == [] then ""
    else if |texts| == 1 then texts[0]
    else Join(texts[..|texts| - 1], separator) + separator + texts[|texts| - 1]
  }

  lemma {:induction false} TrimStartIsExact(s: string) returns (from: nat)
    ensures from <= |s| && TrimStart(s) == s[from..]
    ensures forall k :: 0 <= k < from ==> IsBlank(s[k])
    ensures from < |s| ==> !IsBlank(s[from])
  {
    from := 0;
    if s != "" && IsBlank(s[0]) {
      from := TrimStartIsExact(s[1..]);
      from := from + 1;
      assert forall k :: 1 <= k < from ==> s[k] == s[1..][k - 1];
    }
  }

  lemma {:induction false} TrimEndIsExact(s: string) returns (to: nat)
    ensures to <= |s| && TrimEnd(s) == s[..to]
    ensures forall k :: to <= k < |s| ==> IsBlank(s[k])
    ensures to > 0 ==> !IsBlank(s[to - 1])
    decreases |s|
  {
    to := |s|;
    if s != "" && IsBlank(s[|s| - 1]) {
      to := TrimEndIsExact(s[..|s| - 1]);
    }
    assert s[..|s|] == s;
  }

  /** Trimming takes away exactly the blanks at both ends. */
  lemma TrimIsExact(s: string) returns (from: nat, to: nat)
    ensures from <= to <= |s| && Trim(s) == s[from..to]
    ensures forall k :: 0 <= k < |s| && (k < from || to <= k) ==> IsBlank(s[k])
    ensures from < to ==> !IsBlank(s[from]) && !IsBlank(s[to - 1])
  {
    from := TrimStartIsExact(s);
    var rest := s[from..];
    var kept := TrimEndIsExact(rest);
    to := from + kept;
    assert rest[..kept] == s[from..to];
    assert forall k :: from <= k < |s| ==> s[k] == rest[k - from];
  }

  /** Splitting loses nothing and leaves no comma inside a piece: joining the pieces with commas gives the text back. */
  lemma {:induction false} SplitIsExact(s: string)
    ensures Join(Split(s), ",") == s
    ensures forall k :: 0 <= k < |Split(s)| ==> ',' !in Split(s)[k]
    decreases |s|
  {
    if s != "" {
      var init, last := s[..|s| - 1], s[|s| - 1];
      SplitIsExact(init);
      assert s == init + [last];
      SplitSnoc(init, last);
      ExtendedIsLonger(Split(init), last);
      hide Join, Split;
    }
  }

  lemma ExtendedIsLonger(pieces: seq<string>, c: char)
    requires |pieces| > 0
    requires forall k :: 0 <= k < |pieces| ==> ',' !in pieces[k]
    ensures Join(Extend(pieces, c), ",") == Join(pieces, ",") + [c]
    ensures forall k :: 0 <= k < |Extend(pieces, c)| ==> ',' !in Extend(pieces, c)[k]
  {
    hide Join;
    if c == ',' {
      JoinSnoc(pieces, "", ",");
      NothingAdded(Join(pieces, ","));
    } else {
      var init, last := pieces[..|pieces| - 1], pieces[|pieces| - 1];
      assert pieces == init + [last];
      JoinLonger(init, last, c);
    }
  }

  lemma NothingAdded(s: string)
    ensures s + "," + "" == s + [',']
  {
  }

  lemma JoinSnoc(pieces: seq<string>, piece: string, separator: string)
    requires |pieces| > 0
    ensures Join(pieces + [piece], separator) == Join(pieces, separator) + separator + piece
  {
    assert (pieces + [piece])[..|pieces|] == pieces;
  }

  /** The last piece grows with the text. */
  lemma JoinLonger(init: seq<string>, last: string, c: char)
    ensures Join(init + [last + [c]], ",") == Join(init + [last], ",") + [c]
  {
    if init == [] {
      assert init + [last + [c]] == [last + [c]] && init + [last] == [last];
    } else {
      JoinSnoc(init, last, ",");
      JoinSnoc(init, last + [c], ",");
      hide Join;
      Regroup(Join(init, ",") + ",", last, [c]);
    }
  }

  lemma FlatSnoc(lines: seq<HeaderLine>, line: HeaderLine)
    ensures Flat(lines + [line]) == Flat(lines) + TokensOf(line)
  {
    assert (lines + [line])[..|lines + [line]| - 1] == lines;
  }

  lemma FlatOne(line: HeaderLine)
    ensures Flat([line]) == TokensOf(line)
  {
    FlatSnoc([], line);
    assert [] + [line] == [line];
  }

  lemma {:induction false} FlatConcat(a: seq<HeaderLine>, b: seq<HeaderLine>)
    ensures Flat(a + b) == Flat(a) + Flat(b)
    decreases |b|
  {
    if b == [] {
      assert a + b == a;
    } else {
      var init, last := b[..|b| - 1], b[|b| - 1];
      assert b == init + [last];
      assert a + b == (a + init) + [last];
      FlatConcat(a, init);
      FlatSnoc(a + init, last);
      FlatSnoc(init, last);
      Regroup(Flat(a), Flat(init), TokensOf(last));
    }
  }

  lemma Regroup<T>(a: seq<T>, b: seq<T>, c: seq<T>)
    ensures (a + b) + c == a + (b + c)
  {
  }

  /** The entries a piece contributes: none if it is blank. */
  function EntriesOf(piece: string): seq<Token> {
    if Trim(piece) == "" then [] else [Named(Trim(piece))]
  }

  lemma EntriesSnoc(pieces: seq<string>, piece: string)
    ensures EntriesAmong(pieces + [piece]) == EntriesAmong(pieces) + EntriesOf(piece)
  {
    assert (pieces + [piece])[..|pieces + [piece]| - 1] == pieces;
  }

  lemma {:induction false} EntriesConcat(a: seq<string>, b: seq<string>)
    ensures EntriesAmong(a + b) == EntriesAmong(a) + EntriesAmong(b)
    decreases |b|
  {
    if b == [] {
      assert a + b == a;
    } else {
      var init, last := b[..|b| - 1], b[|b| - 1];
      assert b == init + [last];
      assert a + b == (a + init) + [last];
      EntriesConcat(a, init);
      EntriesSnoc(a + init, last);
      EntriesSnoc(init, last);
      Regroup(EntriesAmong(a), EntriesAmong(init), EntriesOf(last));
    }
  }

  /** The entries of a line are its pieces in order, trimmed, but for those that are blank. */
  lemma {:induction false} EntriesInOrder(pieces: seq<string>) returns (from: seq<nat>)
    ensures |from| == |EntriesAmong(pieces)|
    ensures forall k :: 0 <= k < |from| ==>
      from[k] < |pieces| && Trim(pieces[from[k]]) != "" && EntriesAmong(pieces)[k] == Named(Trim(pieces[from[k]]))
    ensures forall j, k :: 0 <= j < k < |from| ==> from[j] < from[k]
    ensures forall i :: 0 <= i < |pieces| && Trim(pieces[i]) != "" ==> i in from
  {
    hide Trim;
    from := [];
    if pieces != [] {
      from := EntriesInOrder(pieces[..|pieces| - 1]);
      if Trim(pieces[|pieces| - 1]) != "" {
        from := from + [|pieces| - 1];
      }
    }
  }

  /** A line that is no text is one unreadable token; lines follow each other in order. */
  lemma TokensInOrder(lines: seq<HeaderLine>, line: HeaderLine)
    ensures Flat(lines + [line]) == Flat(lines) +
      match line
      case Text(text) => EntriesAmong(Split(text))
      case NotText(escaped) => [Unreadable(escaped)]
    ensures Flat([]) == []
  {
    FlatSnoc(lines, line);
  }

  /** The pieces once one more character is read. */
  function Extend(pieces: seq<string>, c: char): seq<string>
    requires |pieces| > 0
  {
    if c == ',' then pieces + [""]
    else pieces[..|pieces| - 1] + [pieces[|pieces| - 1] + [c]]
  }

  lemma SplitSnoc(s: string, c: char)
    ensures Split(s + [c]) == Extend(Split(s), c)
  {
    assert (s + [c])[..|s + [c]| - 1] == s;
  }

  lemma ExtendConcat(a: seq<string>, b: seq<string>, c: char)
    requires |b| > 0
    ensures Extend(a + b, c) == a + Extend(b, c)
  {
    assert (a + b)[..|a + b| - 1] == a + b[..|b| - 1];
  }

  lemma {:induction false} SplitAtComma(a: string, b: string)
    ensures Split(a + "," + b) == Split(a) + Split(b)
    decreases |b|
  {
    if b == "" {
      SplitSnoc(a, ',');
      assert a + "," + b == a + [','];
    } else {
      var init, last := b[..|b| - 1], b[|b| - 1];
      assert b == init + [last];
      assert a + "," + b == (a + "," + init) + [last];
      SplitAtComma(a, init);
      SplitSnoc(a + "," + init, last);
      SplitSnoc(init, last);
      ExtendConcat(Split(a), Split(init), last);
    }
  }

  lemma {:induction false} TrimStartBlanks(blanks: string, s: string)
    requires forall c :: c in blanks ==> IsBlank(c)
    ensures TrimStart(blanks + s) == TrimStart(s)
    decreases |blanks|
  {
    if blanks == "" {
      assert blanks + s == s;
    } else {
      TrimStartBlanks(blanks[1..], s);
      assert (blanks + s)[1..] == blanks[1..] + s;
      assert blanks[0] in blanks;
    }
  }

  /** Blanks before a text only lengthen its first piece. */
  function Indent(blanks: string, pieces: seq<string>): seq<string>
    requires |pieces| > 0
  {
    [blanks + pieces[0]] + pieces[1..]
  }

  lemma ExtendIndented(blanks: string, pieces: seq<string>, c: char)
    requires |pieces| > 0
    ensures Extend(Indent(blanks, pieces), c) == Indent(blanks, Extend(pieces, c))
  {
    if |pieces| == 1 && c != ',' {
      assert blanks + pieces[0] + [c] == blanks + (pieces[0] + [c]);
    }
  }

  lemma {:induction false} SplitBlanks(blanks: string, s: string)
    requires forall c :: c in blanks ==> IsBlank(c)
    ensures Split(blanks + s) == Indent(blanks, Split(s))
    decreases |s|
  {
    if s == "" {
      assert blanks + s == blanks;
      SplitOnlyBlanks(blanks);
    } else {
      var init, last := s[..|s| - 1], s[|s| - 1];
      assert s == init + [last];
      assert blanks + s == (blanks + init) + [last];
      SplitBlanks(blanks, init);
      SplitSnoc(blanks + init, last);
      SplitSnoc(init, last);
      ExtendIndented(blanks, Split(init), last);
    }
  }

  lemma {:induction false} SplitOnlyBlanks(blanks: string)
    requires forall c :: c in blanks ==> IsBlank(c)
    ensures Split(blanks) == [blanks]
    decreases |blanks|
  {
    if blanks != "" {
      var init, last := blanks[..|blanks| - 1], blanks[|blanks| - 1];
      SplitOnlyBlanks(init);
      assert blanks == init + [last];
      assert last in blanks;
      SplitSnoc(init, last);
    }
  }

  /** A comma, with any blanks after it, separates entries just as a line break does. */
  lemma CommaSplitsLines(a: string, blanks: string, b: string)
    requires forall c :: c in blanks ==> IsBlank(c)
    ensures TokensOf(Text(a + "," + blanks + b)) == TokensOf(Text(a)) + TokensOf(Text(b))
  {
    assert a + "," + blanks + b == a + "," + (blanks + b);
    SplitAtComma(a, blanks + b);
    EntriesConcat(Split(a), Split(blanks + b));
    IndentedEntries(blanks, b);
  }

  lemma IndentedEntries(blanks: string, b: string)
    requires forall c :: c in blanks ==> IsBlank(c)
    ensures EntriesAmong(Split(blanks + b)) == EntriesAmong(Split(b))
  {
    hide Split, EntriesAmong, Trim;
    SplitBlanks(blanks, b);
    var first, rest := Split(b)[0], Split(b)[1..];
    assert Split(b) == [first] + rest;
    EntriesConcat([blanks + first], rest);
    EntriesConcat([first], rest);
    IndentedPiece(blanks, first);
  }

  lemma IndentedPiece(blanks: string, piece: string)
    requires forall c :: c in blanks ==> IsBlank(c)
    ensures EntriesAmong([blanks + piece]) == EntriesAmong([piece])
  {
    hide EntriesAmong, TrimStart, TrimEnd;
    TrimStartBlanks(blanks, piece);
    EntriesSnoc([], blanks + piece);
    EntriesSnoc([], piece);
    assert [] + [blanks + piece] == [blanks + piece] && [] + [piece] == [piece];
  }

  lemma {:induction false} JoinedLinesAreFlat(texts: seq<string>, blanks: string)
    requires forall c :: c in blanks ==> IsBlank(c)
    ensures Flat(Lines(texts)) == TokensOf(Text(Join(texts, "," + blanks)))
    decreases |texts|
  {
    if texts == [] {
      EntriesSnoc([], "");
      assert [] + [""] == [""];
    } else {
      var init, last := texts[..|texts| - 1], texts[|texts| - 1];
      assert Lines(texts) == Lines(init) + [Text(last)];
      FlatSnoc(Lines(init), Text(last));
      if |texts| > 1 {
        JoinedLinesAreFlat(init, blanks);
        var line := Join(init, "," + blanks);
        CommaSplitsLines(line, blanks, last);
        Regroup(line, ",", blanks);
      }
    }
  }
}
