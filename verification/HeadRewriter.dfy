/** Rewriting a request head for the authenticated relay
    (`app/src-tauri/src/vncproxy.rs`). The head is decoded text. */
module HeadRewriter {
  import opened Basics

  const CRLF: string := "\r\n"

  datatype Rewrite = EmptyHead | Rewritten(head: string, isUpgrade: bool)

  // ---- Lines ----

  /** `split("\r\n")`. */
  function Split(s: string): (lines: seq<string>)
    ensures lines != [] && forall l :: l in lines ==> Find(l, CRLF).None?
    decreases |s|
  {
    match Find(s, CRLF)
    case None => [s]
    case Some(i) =>
      FirstPieceIsLine(s);
      [s[..i]] + Split(s[i + 2..])
  }

  lemma FirstPieceIsLine(s: string)
    requires Find(s, CRLF).Some?
    ensures Find(s[..Find(s, CRLF).value], CRLF).None?
  {
    var i := Find(s, CRLF).value;
    FindInPrefix(s[..i], s[i..], CRLF);
    assert s[..i] + s[i..] == s;
  }

  /** Keeps the non-empty lines. */
  function NonEmpty(lines: seq<string>): (kept: seq<string>)
    ensures forall l :: l in kept <==> l in lines && l != ""
  {
    if lines == [] then []
    else
      var kept := NonEmpty(lines[..|lines| - 1]);
      var last := lines[|lines| - 1];
      assert lines == lines[..|lines| - 1] + [last];
      if last == "" then kept else kept + [last]
  }

  /** The lines of a head: the request line and the headers. */
  function Lines(head: string): (lines: seq<string>)
    ensures forall l :: l in lines ==> IsLine(l)
  {
    NonEmpty(Split(head))
  }

  predicate IsLine(l: string) {
    l != "" && Find(l, CRLF).None?
  }

  /** Every line followed by CRLF. */
  function Join(lines: seq<string>): string {
    if lines == [] then "" else lines[0] + CRLF + Join(lines[1..])
  }

  // ---- Headers ----

  predicate SameName(a: string, b: string) {
    LowerAll(a) == LowerAll(b)
  }

  /** `char::is_whitespace`. */
  predicate IsSpace(c: char) {
    || '\t' <= c <= '\r' || c in {' ', '\U{85}', '\U{A0}', '\U{1680}', '\U{2028}', '\U{2029}'}
    || c in {'\U{202F}', '\U{205F}', '\U{3000}'}
    || '\U{2000}' <= c <= '\U{200A}'
  }

  function Trim(s: string): string {
    if s != "" && IsSpace(s[0]) then Trim(s[1..])
    else if s != "" && IsSpace(s[|s| - 1]) then Trim(s[..|s| - 1])
    else s
  }

  /** Up to the first colon, or all of it. */
  function RawName(h: string): string {
    match Find(h, ":") case Some(i) => h[..i] case None => h
  }

  function Name(h: string): string {
    Trim(RawName(h))
  }

  predicate IsUpgradeHeader(h: string) {
    match Find(h, ":")
    case None => false
    case Some(i) => SameName(h[..i], "upgrade") && Find(LowerAll(h[i + 1..]), "websocket").Some?
  }

  predicate IsUpgrade(headers: seq<string>) {
    exists h :: h in headers && IsUpgradeHeader(h)
  }

  predicate IsAuthorization(h: string) {
    SameName(Name(h), "authorization")
  }

  /** The headers that do not reach the relay. */
  predicate Dropped(h: string, isUpgrade: bool) {
    || IsAuthorization(h)
    || (!isUpgrade && (SameName(Name(h), "connection") || SameName(Name(h), "keep-alive")))
  }

  function Kept(headers: seq<string>, isUpgrade: bool): (kept: seq<string>)
    ensures forall h :: h in kept <==> h in headers && !Dropped(h, isUpgrade)
  {
    if headers == [] then []
    else
      var kept := Kept(headers[..|headers| - 1], isUpgrade);
      var last := headers[|headers| - 1];
      assert headers == headers[..|headers| - 1] + [last];
      if Dropped(last, isUpgrade) then kept else kept + [last]
  }

  /** The headers of our own. */
  function Added(isUpgrade: bool, authorization: string): seq<string> {
    (if isUpgrade then [] else ["Connection: close"]) + ["Authorization: " + authorization]
  }

  /** The lines the rewritten head consists of. */
  function NewLines(lines: seq<string>, authorization: string): seq<string>
    requires lines != []
  {
    var isUpgrade := IsUpgrade(lines[1..]);
    [lines[0]] + Kept(lines[1..], isUpgrade) + Added(isUpgrade, authorization)
  }

  function RewriteSpec(head: string, authorization: string): Rewrite {
    var lines := Lines(head);
    if lines == [] then EmptyHead
    else Rewritten(Join(NewLines(lines, authorization)) + CRLF, IsUpgrade(lines[1..]))
  }

  /** `rewrite_request_head`. */
  method RewriteRequestHead(head: string, authorization: string) returns (r: Rewrite)
    ensures r == RewriteSpec(head, authorization)
  {
    hide Lines, IsUpgrade, Dropped, Join, Added;
    var lines := Lines(head);
    if lines == [] {
      return EmptyHead;
    }
    var headers := lines[1..];
    var isUpgrade := IsUpgrade(headers);
    var out := lines[0] + "\r\n";
    JoinOne(lines[0]);
    assert [lines[0]] + Kept(headers[..0], isUpgrade) == [lines[0]];
    for i := 0 to |headers|
      invariant out == Join([lines[0]] + Kept(headers[..i], isUpgrade))
    {
      var h := headers[i];
      assert headers[..i + 1][..i] == headers[..i];
      if !Dropped(h, isUpgrade) {
        out := out + h + "\r\n";
        JoinSnoc([lines[0]] + Kept(headers[..i], isUpgrade), h);
        assert [lines[0]] + Kept(headers[..i + 1], isUpgrade) == [lines[0]] + Kept(headers[..i], isUpgrade) + [h];
      }
    }
    assert headers[..|headers|] == headers;
    JoinAdded([lines[0]] + Kept(headers, isUpgrade), isUpgrade, authorization);
    if !isUpgrade {
      out := out + "Connection: close\r\n";
    }
    out := out + "Authorization: ";
    out := out + authorization;
    out := out + "\r\n\r\n";
    return Rewritten(out, isUpgrade);
  }

  lemma JoinOne(l: string)
    ensures Join([l]) == l + CRLF
  {
  }

  lemma JoinSnoc(lines: seq<string>, l: string)
    ensures Join(lines + [l]) == Join(lines) + l + CRLF
  {
    JoinConcat(lines, [l]);
    JoinOne(l);
    assert Join(lines) + (l + CRLF) == Join(lines) + l + CRLF;
  }

  lemma JoinAdded(lines: seq<string>, isUpgrade: bool, authorization: string)
    ensures Join(lines + Added(isUpgrade, authorization)) + CRLF
            == (if isUpgrade then Join(lines) else Join(lines) + "Connection: close\r\n")
               + "Authorization: " + authorization + "\r\n\r\n"
  {
    hide Join;
    var close := "Connection: close";
    var auth := "Authorization: " + authorization;
    var before := if isUpgrade then lines else lines + [close];
    JoinSnoc(lines, close);
    JoinSnoc(before, auth);
    assert lines + Added(isUpgrade, authorization) == before + [auth];
    assert Join(lines) + close + CRLF == Join(lines) + "Connection: close\r\n";
    assert Join(before) + auth + CRLF + CRLF == Join(before) + "Authorization: " + authorization + "\r\n\r\n";
  }

  lemma {:induction false} JoinConcat(a: seq<string>, b: seq<string>)
    ensures Join(a + b) == Join(a) + Join(b)
  {
    if a == [] {
      assert a + b == b;
    } else {
      JoinConcat(a[1..], b);
      assert (a + b)[1..] == a[1..] + b && (a + b)[0] == a[0];
      assert a[0] + CRLF + (Join(a[1..]) + Join(b)) == (a[0] + CRLF + Join(a[1..])) + Join(b);
    }
  }

  // ---- Parsing the result back ----

  /** The first CRLF after a line is the one that ends it. */
  lemma LineEndsAtCrlf(l: string, rest: string)
    requires Find(l, CRLF).None?
    ensures Find(l + CRLF + rest, CRLF) == Some(|l|)
  {
    var s := l + CRLF + rest;
    forall j | 0 <= j < |l| ensures !At(s, CRLF, j) {
      if j + 2 <= |l| {
        assert s[j..j + 2] == l[j..j + 2];
        assert !At(l, CRLF, j);
      } else {
        assert s[j..j + 2][1] == '\r';
      }
    }
    assert s[|l|..|l| + 2] == CRLF;
    FindIs(s, CRLF, |l|);
  }

  lemma SplitLine(l: string, rest: string)
    requires Find(l, CRLF).None?
    ensures Split(l + CRLF + rest) == [l] + Split(rest)
  {
    hide Find;
    LineEndsAtCrlf(l, rest);
    assert (l + CRLF + rest)[..|l|] == l && (l + CRLF + rest)[|l| + 2..] == rest;
  }

  /** Splitting undoes joining. */
  lemma {:induction false} SplitJoin(lines: seq<string>, tail: string)
    requires forall l :: l in lines ==> Find(l, CRLF).None?
    ensures Split(Join(lines) + tail) == lines + Split(tail)
  {
    hide Find, Split;
    if lines == [] {
      assert Join(lines) + tail == tail;
    } else {
      assert Join(lines) + tail == lines[0] + CRLF + (Join(lines[1..]) + tail);
      SplitLine(lines[0], Join(lines[1..]) + tail);
      SplitJoin(lines[1..], tail);
      assert lines == [lines[0]] + lines[1..];
    }
  }

  lemma {:induction false} NonEmptyLines(lines: seq<string>)
    requires forall i :: 0 <= i < |lines| ==> lines[i] != ""
    ensures NonEmpty(lines) == lines
  {
    if lines != [] {
      NonEmptyLines(lines[..|lines| - 1]);
    }
  }

  /** A finished head has exactly the lines it was joined from. */
  lemma LinesOfJoined(lines: seq<string>)
    requires forall l :: l in lines ==> IsLine(l)
    ensures Lines(Join(lines) + CRLF) == lines
  {
    hide Find, Split, Join;
    SplitJoin(lines, CRLF);
    SplitCrlf();
    forall i | 0 <= i < |lines| ensures lines[i] != "" {
      assert lines[i] in lines;
    }
    NonEmptyLines(lines);
    assert (lines + ["", ""])[..|lines| + 1] == lines + [""];
    assert (lines + [""])[..|lines|] == lines;
    assert NonEmpty(lines + [""]) == lines;
    assert NonEmpty(lines + ["", ""]) == lines;
  }

  lemma SplitCrlf()
    ensures Split(CRLF) == ["", ""]
  {
    FindIs(CRLF, CRLF, 0);
    assert CRLF[2..] == "" && Find("", CRLF).None?;
  }

  /** The end-of-head marker of a finished head is the only one, at its very end. */
  lemma {:induction false} OneTerminator(lines: seq<string>)
    requires lines != [] && forall l :: l in lines ==> IsLine(l)
    ensures var out := Join(lines) + CRLF;
            |out| >= 4 && forall j :: At(out, CRLFCRLF, j) <==> j == |out| - 4
  {
    var l, rest := lines[0], Join(lines[1..]) + CRLF;
    var out := l + CRLF + rest;
    assert out == Join(lines) + CRLF;
    assert lines[0] in lines && forall m :: m in lines[1..] ==> m in lines;
    if |lines| > 1 {
      OneTerminator(lines[1..]);
      RestStartsWithLine(lines[1..]);
    } else {
      assert rest == CRLF;
    }
    forall j ensures At(out, CRLFCRLF, j) <==> j == |out| - 4 {
      FirstTerminator(l, rest, j);
      LaterTerminator(l + CRLF, rest, j);
    }
  }

  const CRLFCRLF: string := "\r\n\r\n"

  /** A terminator that starts before the rest starts at the line's own CRLF, and the
      rest then starts with one. */
  lemma FirstTerminator(l: string, rest: string, j: int)
    requires Find(l, CRLF).None?
    ensures var out := l + CRLF + rest;
            j < |l| + 2 ==> (At(out, CRLFCRLF, j) <==> j == |l| && At(rest, CRLF, 0))
  {
    hide Find;
    var out := l + CRLF + rest;
    LineEndsAtCrlf(l, rest);
    if j < |l| + 2 {
      if At(out, CRLFCRLF, j) {
        AtElement(out, CRLFCRLF, j, 0);
        assert out[j] == '\r' && out[|l| + 1] == '\n';
        assert out[j..j + 4][..2] == out[j..j + 2] == CRLF;
        assert At(out, CRLF, j) && j == |l|;
        assert out[j..j + 4][2..] == rest[0..2];
      }
      if j == |l| && At(rest, CRLF, 0) {
        assert out[j..j + 4] == CRLF + rest[0..2];
      }
    }
  }

  lemma LaterTerminator(l: string, rest: string, j: int)
    ensures |l| <= j ==> (At(l + rest, CRLFCRLF, j) <==> At(rest, CRLFCRLF, j - |l|))
  {
    if |l| <= j && j + 4 <= |l + rest| {
      assert (l + rest)[j..j + 4] == rest[j - |l|..j - |l| + 4];
    }
  }

  lemma RestStartsWithLine(lines: seq<string>)
    requires lines != [] && IsLine(lines[0])
    ensures !At(Join(lines) + CRLF, CRLF, 0)
  {
    var rest := Join(lines[1..]) + CRLF;
    assert Join(lines) + CRLF == lines[0] + CRLF + rest;
    LineEndsAtCrlf(lines[0], rest);
  }

  // ---- What the relay receives ----

  lemma AddedAreLines(isUpgrade: bool, authorization: string)
    requires Find(authorization, CRLF).None?
    ensures forall l :: l in Added(isUpgrade, authorization) ==> IsLine(l)
  {
    hide Find;
    FindLacks("Connection: close", CRLF);
    PrefixedLine("Authorization: ", authorization);
  }

  lemma PrefixedLine(name: string, value: string)
    requires '\r' !in name && Find(value, CRLF).None?
    ensures Find(name + value, CRLF).None?
  {
    hide Find;
    forall j | 0 <= j ensures !At(name + value, CRLF, j) {
      AtElement(name + value, CRLF, j, 0);
      if |name| <= j && j + 2 <= |name + value| {
        assert (name + value)[j..j + 2] == value[j - |name|..j - |name| + 2];
        assert !At(value, CRLF, j - |name|);
      }
    }
  }

  lemma NewLinesAreLines(lines: seq<string>, authorization: string)
    requires lines != [] && (forall l :: l in lines ==> IsLine(l)) && Find(authorization, CRLF).None?
    ensures forall l :: l in NewLines(lines, authorization) ==> IsLine(l)
  {
    AddedAreLines(IsUpgrade(lines[1..]), authorization);
  }

  /** The name of a header is what precedes its first colon. */
  lemma NameOf(name: string, value: string)
    requires ':' !in name
    ensures Find(name + ": " + value, ":") == Some(|name|)
    ensures RawName(name + ": " + value) == name
  {
    var h := name + ": " + value;
    assert h[|name|..|name| + 1] == ":";
    forall j | 0 <= j < |name| ensures !At(h, ":", j) {
      AtElement(h, ":", j, 0);
      assert h[j] == name[j] && name[j] in name;
    }
    FindIs(h, ":", |name|);
  }

  lemma LengthsDiffer(a: string, b: string)
    requires |a| != |b|
    ensures !SameName(a, b)
  {
    assert |LowerAll(a)| == |a| && |LowerAll(b)| == |b|;
  }

  /** Our Authorization header, as the rewriter itself would classify it. */
  lemma AuthorizationName(authorization: string)
    ensures IsAuthorization("Authorization: " + authorization)
    ensures !IsUpgradeHeader("Authorization: " + authorization)
  {
    SpelledAuthorization();
    hide Find, Trim, SameName, RawName;
    NameOf("Authorization", authorization);
    assert "Authorization" + ": " + authorization == "Authorization: " + authorization;
    HeaderIs("Authorization", authorization);
  }

  lemma SpelledAuthorization()
    ensures ':' !in "Authorization" && Trim("Authorization") == "Authorization"
    ensures SameName("Authorization", "authorization") && !SameName("Authorization", "upgrade")
  {
    assert LowerAll("Authorization") == LowerAll("authorization");
    LengthsDiffer("Authorization", "upgrade");
  }

  /** A header is no upgrade header if its name is not that of one. */
  lemma HeaderIs(name: string, value: string)
    requires ':' !in name && !SameName(name, "upgrade")
    ensures !IsUpgradeHeader(name + ": " + value)
  {
    hide Find, SameName, LowerAll;
    NameOf(name, value);
    assert (name + ": " + value)[..|name|] == name;
  }

  lemma ConnectionName()
    ensures Dropped("Connection: close", false) && !IsAuthorization("Connection: close")
    ensures !IsUpgradeHeader("Connection: close")
  {
    SpelledConnection();
    hide Find, Trim, SameName, RawName;
    NameOf("Connection", "close");
    assert "Connection" + ": " + "close" == "Connection: close";
    HeaderIs("Connection", "close");
  }

  lemma SpelledConnection()
    ensures ':' !in "Connection" && Trim("Connection") == "Connection"
    ensures SameName("Connection", "connection") && !SameName("Connection", "upgrade")
    ensures !SameName("Connection", "authorization")
  {
    assert LowerAll("Connection") == LowerAll("connection");
    LengthsDiffer("Connection", "upgrade");
    LengthsDiffer("Connection", "authorization");
  }

  /** An upgrade header is never one that is dropped. */
  lemma UpgradeIsKept(h: string)
    requires IsUpgradeHeader(h)
    ensures !Dropped(h, true)
  {
    var raw := RawName(h);
    assert LowerAll(raw) == LowerAll("upgrade");
    assert Lower(raw[0]) == 'u' && Lower(raw[6]) == 'e';
    assert Trim(raw) == raw;
    LengthsDiffer(raw, "authorization");
  }

  /** The flag of the rewritten head is the flag of the original. */
  lemma SameUpgrade(lines: seq<string>, authorization: string)
    requires lines != []
    ensures IsUpgrade(NewLines(lines, authorization)[1..]) == IsUpgrade(lines[1..])
  {
    hide IsUpgradeHeader, Dropped;
    var headers := lines[1..];
    var up := IsUpgrade(headers);
    var kept, added := Kept(headers, up), Added(up, authorization);
    assert NewLines(lines, authorization)[1..] == kept + added;
    AuthorizationName(authorization);
    ConnectionName();
    if up {
      var h :| h in headers && IsUpgradeHeader(h);
      UpgradeIsKept(h);
      assert h in kept + added;
    }
  }

  lemma {:induction false} KeptTwice(headers: seq<string>, isUpgrade: bool)
    ensures Kept(Kept(headers, isUpgrade), isUpgrade) == Kept(headers, isUpgrade)
  {
    if headers != [] {
      var init, last := headers[..|headers| - 1], headers[|headers| - 1];
      KeptTwice(init, isUpgrade);
      var k := Kept(init, isUpgrade);
      assert (k + [last])[..|k|] == k;
    }
  }

  /** Dropping looks at each header on its own and keeps the order of the rest. */
  lemma {:induction false} KeptConcat(a: seq<string>, b: seq<string>, isUpgrade: bool)
    ensures Kept(a + b, isUpgrade) == Kept(a, isUpgrade) + Kept(b, isUpgrade)
  {
    hide Dropped;
    if b == [] {
      assert a + b == a;
    } else {
      var init := b[..|b| - 1];
      assert (a + b)[..|a + b| - 1] == a + init;
      KeptConcat(a, init, isUpgrade);
    }
  }

  lemma {:induction false} NoneLeft(headers: seq<string>, isUpgrade: bool)
    requires forall h :: h in headers ==> Dropped(h, isUpgrade)
    ensures Kept(headers, isUpgrade) == []
  {
    hide Dropped;
    if headers != [] {
      NoneLeft(headers[..|headers| - 1], isUpgrade);
    }
  }

  lemma KeptThenDropped(kept: seq<string>, more: seq<string>, isUpgrade: bool)
    requires forall h :: h in more ==> Dropped(h, isUpgrade)
    ensures Kept(kept + more, isUpgrade) == Kept(kept, isUpgrade)
  {
    hide Dropped;
    KeptConcat(kept, more, isUpgrade);
    NoneLeft(more, isUpgrade);
  }

  /** The rewritten head parses back, for every head and every authorization value
      free of CRLF: the same request line, the kept headers in order and unchanged,
      then our own; exactly one Authorization header, ours; exactly one end-of-head
      marker, the last four characters. */
  lemma ParsesBack(head: string, authorization: string)
    requires Find(authorization, CRLF).None? && Lines(head) != []
    ensures var r := RewriteSpec(head, authorization);
            var lines := Lines(r.head);
            var headers := Lines(head)[1..];
            && lines == [Lines(head)[0]] + Kept(headers, r.isUpgrade) + Added(r.isUpgrade, authorization)
            && (forall j :: At(r.head, CRLFCRLF, j) <==> j == |r.head| - 4)
            && lines[|lines| - 1] == "Authorization: " + authorization
            && (forall i :: 0 < i < |lines| ==> (IsAuthorization(lines[i]) <==> i == |lines| - 1))
  {
    hide Lines, Dropped, IsAuthorization, IsUpgrade, Join, Kept;
    var old_lines := Lines(head);
    var lines := NewLines(old_lines, authorization);
    NewLinesAreLines(old_lines, authorization);
    LinesOfJoined(lines);
    OneTerminator(lines);
    OneAuthorization(old_lines, authorization);
  }

  lemma OneAuthorization(lines: seq<string>, authorization: string)
    requires lines != []
    ensures var after := NewLines(lines, authorization);
            && after[|after| - 1] == "Authorization: " + authorization
            && forall i :: 0 < i < |after| ==> (IsAuthorization(after[i]) <==> i == |after| - 1)
  {
    hide IsAuthorization, IsUpgradeHeader, IsUpgrade, Kept, Find, Dropped;
    var up := IsUpgrade(lines[1..]);
    var kept := Kept(lines[1..], up);
    AuthorizationName(authorization);
    ConnectionName();
    NoneKept(lines[1..], up);
  }

  lemma NoneKept(headers: seq<string>, isUpgrade: bool)
    ensures forall i :: 0 <= i < |Kept(headers, isUpgrade)| ==> !IsAuthorization(Kept(headers, isUpgrade)[i])
  {
    hide IsAuthorization;
    var kept := Kept(headers, isUpgrade);
    forall i | 0 <= i < |kept| ensures !IsAuthorization(kept[i]) {
      assert kept[i] in kept;
    }
  }

  /** Rewriting a rewritten head changes nothing, the upgrade flag included. */
  lemma Idempotent(head: string, authorization: string)
    requires Find(authorization, CRLF).None? && Lines(head) != []
    ensures var r := RewriteSpec(head, authorization);
            RewriteSpec(r.head, authorization) == r
  {
    hide Lines, IsUpgrade, Join, NewLines, Find;
    var lines := Lines(head);
    NewLinesAreLines(lines, authorization);
    LinesOfJoined(NewLines(lines, authorization));
    SameUpgrade(lines, authorization);
    NewLinesTwice(lines, authorization);
  }

  lemma NewLinesTwice(lines: seq<string>, authorization: string)
    requires lines != []
    ensures var once := NewLines(lines, authorization);
            once != [] && NewLines(once, authorization) == once
  {
    hide Kept, IsUpgrade, Added, Dropped;
    var up := IsUpgrade(lines[1..]);
    var kept, added := Kept(lines[1..], up), Added(up, authorization);
    SameUpgrade(lines, authorization);
    AddedAreDropped(up, authorization);
    KeptThenDropped(kept, added, up);
    KeptTwice(lines[1..], up);
    assert NewLines(lines, authorization)[1..] == kept + added;
  }

  lemma AddedAreDropped(isUpgrade: bool, authorization: string)
    ensures forall h :: h in Added(isUpgrade, authorization) ==> Dropped(h, isUpgrade)
  {
    AuthorizationName(authorization);
    ConnectionName();
  }

  // ---- Splitting and keeping, in order ----

  /** The pieces with CRLF between them. */
  function Glue(pieces: seq<string>): string
    requires pieces != []
  {
    if |pieces| == 1 then pieces[0] else pieces[0] + CRLF + Glue(pieces[1..])
  }

  /** Splitting loses nothing. */
  lemma {:induction false} GlueSplit(s: string)
    ensures Glue(Split(s)) == s
    decreases |s|
  {
    match Find(s, CRLF)
    case None =>
    case Some(i) =>
      GlueSplit(s[i + 2..]);
      assert ([s[..i]] + Split(s[i + 2..]))[1..] == Split(s[i + 2..]);
      assert s == s[..i] + CRLF + s[i + 2..];
  }

  /** The non-empty lines are in their order. */
  lemma {:induction false} NonEmptyInOrder(lines: seq<string>) returns (idx: seq<nat>)
    ensures Picked(lines, idx, NonEmpty(lines), (l: string) => l != "")
  {
    idx := [];
    if lines != [] {
      hide Picked;
      var init := lines[..|lines| - 1];
      idx := NonEmptyInOrder(init);
      idx := PickedSnoc(lines, idx, NonEmpty(init), (l: string) => l != "");
    }
  }

  /** A header line in its parts: the name, whatever space is around it, and the colon
      with what follows it, or nothing. */
  ghost predicate Parts(h: string, lead: string, name: string, trail: string, rest: string) {
    && h == lead + name + trail + rest
    && ':' !in lead + name + trail && (rest == "" || rest[0] == ':')
    && (forall c :: c in lead + trail ==> IsSpace(c))
    && (name == "" || (!IsSpace(name[0]) && !IsSpace(name[|name| - 1])))
  }

  /** The header has that name, in whatever case. */
  ghost predicate Called(h: string, n: string) {
    exists lead, name, trail, rest :: Parts(h, lead, name, trail, rest) && SameName(name, n)
  }

  /** The header asks for a websocket. */
  ghost predicate AsksForWebsocket(h: string) {
    exists name, value, j ::
      && h == name + ":" + value && ':' !in name
      && SameName(name, "upgrade") && At(LowerAll(value), "websocket", j)
  }

  /** The kept headers, in their order: on an upgrade all but the ones that authorize, and
      otherwise those that keep the connection open are gone as well. */
  lemma KeptInOrder(headers: seq<string>, isUpgrade: bool) returns (idx: seq<nat>)
    ensures isUpgrade ==>
              Picked(headers, idx, Kept(headers, isUpgrade), (h: string) => !Called(h, "authorization"))
    ensures !isUpgrade ==>
              Picked(headers, idx, Kept(headers, isUpgrade), (h: string) =>
                !Called(h, "authorization") && !Called(h, "connection") && !Called(h, "keep-alive"))
  {
    hide Called, Name, SameName, Kept;
    forall h, n ensures Called(h, n) <==> SameName(Name(h), n) {
      NameIs(h, n);
    }
    idx := KeptPicked(headers, isUpgrade);
  }

  lemma {:induction false} KeptPicked(headers: seq<string>, isUpgrade: bool) returns (idx: seq<nat>)
    ensures Picked(headers, idx, Kept(headers, isUpgrade), (h: string) => !Dropped(h, isUpgrade))
  {
    hide Dropped;
    idx := [];
    if headers != [] {
      hide Picked;
      var init := headers[..|headers| - 1];
      idx := KeptPicked(init, isUpgrade);
      idx := PickedSnoc(headers, idx, Kept(init, isUpgrade), (h: string) => !Dropped(h, isUpgrade));
    }
  }

  /** What the relay is sent, line by line, for every head that has a line: the request
      line, the caller's headers that are kept, in their order, and then ours. */
  lemma RelayReceives(head: string, authorization: string) returns (kept: seq<string>, idx: seq<nat>)
    requires Find(authorization, CRLF).None? && Lines(head) != []
    ensures var r := RewriteSpec(head, authorization);
            var headers := Lines(head)[1..];
            var ours := "Authorization: " + authorization;
            && r.Rewritten?
            && (r.isUpgrade <==> exists h :: h in headers && AsksForWebsocket(h))
            && (r.isUpgrade ==>
                  && Lines(r.head) == [Lines(head)[0]] + kept + [ours]
                  && Picked(headers, idx, kept, (h: string) => !Called(h, "authorization")))
            && (!r.isUpgrade ==>
                  && Lines(r.head) == [Lines(head)[0]] + kept + ["Connection: close", ours]
                  && Picked(headers, idx, kept, (h: string) =>
                       !Called(h, "authorization") && !Called(h, "connection") && !Called(h, "keep-alive")))
  {
    hide Lines, Called, Kept, Join, Picked, AsksForWebsocket, IsUpgradeHeader, Added, IsAuthorization;
    var headers := Lines(head)[1..];
    ParsesBack(head, authorization);
    forall h | h in headers ensures AsksForWebsocket(h) <==> IsUpgradeHeader(h) {
      UpgradeHeaderIs(h);
    }
    kept := Kept(headers, IsUpgrade(headers));
    idx := KeptInOrder(headers, IsUpgrade(headers));
    AddedLines(authorization);
  }

  /** Names are the same when their letters are, a capital and a small one alike. */
  lemma SameNameMeans(a: string, b: string)
    ensures SameName(a, b) <==> |a| == |b| && forall i :: 0 <= i < |a| ==> SameLetter(a[i], b[i])
  {
    if |a| == |b| {
      assert LowerAll(a) == LowerAll(b) <==> forall i :: 0 <= i < |a| ==> LowerAll(a)[i] == LowerAll(b)[i];
      forall i | 0 <= i < |a| ensures LowerAll(a)[i] == LowerAll(b)[i] <==> SameLetter(a[i], b[i]) {
        LowerMeans(a[i], b[i]);
      }
    } else {
      LengthsDiffer(a, b);
    }
  }

  ghost predicate SameLetter(c: char, d: char) {
    || c == d
    || ('A' <= c <= 'Z' && d as int == c as int + 32)
    || ('A' <= d <= 'Z' && c as int == d as int + 32)
  }

  lemma LowerMeans(c: char, d: char)
    ensures Lower(c) == Lower(d) <==> SameLetter(c, d)
  {
  }

  lemma AddedLines(authorization: string)
    ensures Added(true, authorization) == ["Authorization: " + authorization]
    ensures Added(false, authorization) == ["Connection: close", "Authorization: " + authorization]
  {
  }

  lemma NameIs(h: string, n: string)
    ensures Called(h, n) <==> SameName(Name(h), n)
  {
    hide SameName, Trim, Find;
    var lead, trail, rest := PartsOf(h);
    if SameName(Name(h), n) {
      assert Called(h, n);
    }
    if lead', name, trail', rest' :| Parts(h, lead', name, trail', rest') && SameName(name, n) {
      PartsAreUnique(h, lead', name, trail', rest');
    }
  }

  lemma PartsOf(h: string) returns (lead: string, trail: string, rest: string)
    ensures Parts(h, lead, Name(h), trail, rest)
  {
    hide Trim, IsSpace;
    var raw := RawName(h);
    lead, trail := TrimParts(raw);
    rest := h[|raw|..];
    assert h == raw + rest;
    ColonFree(h);
    assert lead + Name(h) + trail == raw;
  }

  lemma ColonFree(h: string)
    ensures ':' !in RawName(h) && RawName(h) <= h
    ensures |RawName(h)| < |h| ==> h[|RawName(h)|] == ':'
  {
    var raw := RawName(h);
    forall j | 0 <= j < |raw| ensures raw[j] != ':' {
      assert h[j..j + 1] == [h[j]];
      assert !At(h, ":", j);
    }
    match Find(h, ":")
    case Some(i) => AtElement(h, ":", i, 0);
    case None =>
  }

  lemma PartsAreUnique(h: string, lead: string, name: string, trail: string, rest: string)
    requires Parts(h, lead, name, trail, rest)
    ensures Name(h) == name
  {
    hide Trim, IsSpace;
    var raw := lead + name + trail;
    TrimIs(lead, name, trail);
    forall j | 0 <= j < |raw| ensures !At(h, ":", j) {
      AtElement(h, ":", j, 0);
      assert h[j] == raw[j] && raw[j] in raw;
    }
    if rest == "" {
      assert h == raw;
      FindLacks(h, ":");
    } else {
      assert h[|raw|..|raw| + 1] == [rest[0]] == ":";
      FindIs(h, ":", |raw|);
      assert h[..|raw|] == raw;
    }
  }

  lemma {:induction false} TrimParts(s: string) returns (lead: string, trail: string)
    ensures s == lead + Trim(s) + trail && forall c :: c in lead + trail ==> IsSpace(c)
    ensures var t := Trim(s); t == "" || (!IsSpace(t[0]) && !IsSpace(t[|t| - 1]))
    decreases |s|
  {
    hide IsSpace;
    lead, trail := "", "";
    if s != "" && IsSpace(s[0]) {
      lead, trail := TrimParts(s[1..]);
      lead := [s[0]] + lead;
    } else if s != "" && IsSpace(s[|s| - 1]) {
      lead, trail := TrimParts(s[..|s| - 1]);
      trail := trail + [s[|s| - 1]];
    }
  }

  lemma {:induction false} TrimIs(lead: string, t: string, trail: string)
    requires forall c :: c in lead + trail ==> IsSpace(c)
    requires t == "" || (!IsSpace(t[0]) && !IsSpace(t[|t| - 1]))
    ensures Trim(lead + t + trail) == t
    decreases |lead| + |trail|
  {
    hide IsSpace;
    var s := lead + t + trail;
    if lead != "" {
      assert lead[0] in lead + trail && s[1..] == lead[1..] + t + trail;
      assert forall c :: c in lead[1..] + trail ==> c in lead + trail;
      TrimIs(lead[1..], t, trail);
    } else if trail != "" {
      var rest := trail[..|trail| - 1];
      assert trail[|trail| - 1] in lead + trail && s[..|s| - 1] == lead + t + rest;
      assert forall c :: c in lead + rest ==> c in lead + trail;
      if t == "" {
        assert trail[0] in lead + trail && s[1..] == lead + t + trail[1..];
        assert forall c :: c in lead + trail[1..] ==> c in lead + trail;
        TrimIs(lead, t, trail[1..]);
      } else {
        TrimIs(lead, t, rest);
      }
    } else {
      assert s == t;
    }
  }

  lemma UpgradeHeaderIs(h: string)
    ensures IsUpgradeHeader(h) <==> AsksForWebsocket(h)
  {
    hide SameName, LowerAll;
    ColonFree(h);
    if IsUpgradeHeader(h) {
      var i := Find(h, ":").value;
      AtElement(h, ":", i, 0);
      assert h == h[..i] + ":" + h[i + 1..];
      assert At(LowerAll(h[i + 1..]), "websocket", Find(LowerAll(h[i + 1..]), "websocket").value);
    }
    if name, value, j :| h == name + ":" + value && ':' !in name
                         && SameName(name, "upgrade") && At(LowerAll(value), "websocket", j) {
      ColonAfter(name, value);
    }
  }

  lemma ColonAfter(name: string, value: string)
    requires ':' !in name
    ensures var h := name + ":" + value;
            Find(h, ":") == Some(|name|) && h[..|name|] == name && h[|name| + 1..] == value
  {
    var h := name + ":" + value;
    assert h[|name|..|name| + 1] == ":";
    forall j | 0 <= j < |name| ensures !At(h, ":", j) {
      AtElement(h, ":", j, 0);
      assert h[j] == name[j] && name[j] in name;
    }
    FindIs(h, ":", |name|);
  }

  // ---- A relay that ends lines at a bare LF ----

  const LF: string := "\n"

  function WithoutCr(l: string): string {
    if l != "" && l[|l| - 1] == '\r' then l[..|l| - 1] else l
  }

  /** The lines of a recipient that ends a line at LF and ignores a CR before it, as
      section 2.2 of RFC 9112 allows. */
  function LfLines(s: string): (lines: seq<string>)
    ensures lines != []
    decreases |s|
  {
    match Find(s, LF)
    case None => [s]
    case Some(i) => [WithoutCr(s[..i])] + LfLines(s[i + 1..])
  }

  function Flat(lines: seq<string>): seq<string> {
    if lines == [] then [] else LfLines(lines[0]) + Flat(lines[1..])
  }

  lemma LfEnds(l: string, rest: string)
    requires Find(l, LF).None?
    ensures Find(l + CRLF + rest, LF) == Some(|l| + 1)
  {
    hide Find;
    var s := l + CRLF + rest;
    assert s[|l| + 1..|l| + 2] == LF;
    forall j | 0 <= j < |l| + 1 ensures !At(s, LF, j) {
      AtElement(s, LF, j, 0);
      if j < |l| {
        assert l[j..j + 1] == [l[j]] && !At(l, LF, j);
      }
    }
    FindIs(s, LF, |l| + 1);
  }

  lemma {:induction false} LfAppend(l: string, rest: string)
    ensures LfLines(l + CRLF + rest) == LfLines(l) + LfLines(rest)
    decreases |l|
  {
    hide Find;
    var s := l + CRLF + rest;
    match Find(l, LF)
    case None =>
      LfEnds(l, rest);
      assert s[..|l| + 1] == l + "\r" && s[|l| + 2..] == rest;
      assert WithoutCr(l + "\r") == l;
    case Some(i) =>
      assert s == l + (CRLF + rest);
      FindInPrefix(l, CRLF + rest, LF);
      assert s[..i] == l[..i] && s[i + 1..] == l[i + 1..] + CRLF + rest;
      LfAppend(l[i + 1..], rest);
  }

  lemma {:induction false} LfOfJoin(lines: seq<string>, tail: string)
    ensures LfLines(Join(lines) + tail) == Flat(lines) + LfLines(tail)
  {
    hide LfLines;
    if lines == [] {
      assert Join(lines) + tail == tail;
    } else {
      assert Join(lines) + tail == lines[0] + CRLF + (Join(lines[1..]) + tail);
      LfAppend(lines[0], Join(lines[1..]) + tail);
      LfOfJoin(lines[1..], tail);
    }
  }

  lemma {:induction false} FlatConcat(a: seq<string>, b: seq<string>)
    ensures Flat(a + b) == Flat(a) + Flat(b)
  {
    hide LfLines;
    if a == [] {
      assert a + b == b;
    } else {
      FlatConcat(a[1..], b);
      assert (a + b)[1..] == a[1..] + b && (a + b)[0] == a[0];
      assert LfLines(a[0]) + (Flat(a[1..]) + Flat(b)) == LfLines(a[0]) + Flat(a[1..]) + Flat(b);
    }
  }

  lemma OneLfLine(l: string)
    requires '\n' !in l
    ensures LfLines(l) == [l]
  {
    hide Find;
    FindLacks(l, LF);
  }

  lemma {:induction false} FlatOfPlain(lines: seq<string>)
    requires forall l :: l in lines ==> '\n' !in l
    ensures Flat(lines) == lines
  {
    hide LfLines;
    if lines != [] {
      OneLfLine(lines[0]);
      FlatOfPlain(lines[1..]);
    }
  }

  /** The lines of such a relay's head: up to the first empty one. */
  function UpToEmpty(lines: seq<string>): (head: seq<string>)
    ensures head <= lines && "" !in head && (|head| < |lines| ==> lines[|head|] == "")
  {
    if lines == [] || lines[0] == "" then [] else [lines[0]] + UpToEmpty(lines[1..])
  }

  /** Among its headers, exactly the line that is third from the end of all that it was
      sent is an Authorization header; that is the line we add. */
  ghost predicate SeesOnlyOurs(out: seq<string>) {
    var head := UpToEmpty(out);
    0 < |out| - 3 < |head| && forall i :: 0 < i < |head| ==> (IsAuthorization(head[i]) <==> i == |out| - 3)
  }

  /** A line of the head that is passed on holds a bare LF, and what such a relay cuts it
      into holds an empty line or an Authorization header. */
  predicate Smuggles(lines: seq<string>, isUpgrade: bool)
    requires lines != []
  {
    var kept := Flat(Kept(lines[1..], isUpgrade));
    || "" in LfLines(lines[0]) + kept
    || exists l :: l in LfLines(lines[0])[1..] + kept && IsAuthorization(l)
  }

  /** Exactly when such a relay, too, sees one Authorization header, and that is ours. */
  lemma LfRelayExactlyWhen(head: string, authorization: string)
    requires Lines(head) != [] && '\n' !in authorization
    ensures var r := RewriteSpec(head, authorization);
            var out := LfLines(r.head);
            && |out| > 3 && out[|out| - 3] == "Authorization: " + authorization
            && (SeesOnlyOurs(out) <==> !Smuggles(Lines(head), r.isUpgrade))
  {
    hide Lines, IsAuthorization, LfLines, Join, IsUpgrade, Kept, Flat, Find, SeesOnlyOurs;
    var lines := Lines(head);
    var up := IsUpgrade(lines[1..]);
    var kept := Kept(lines[1..], up);
    LfOfJoin(NewLines(lines, authorization), CRLF);
    FlatOfNew(lines[0], kept, Added(up, authorization));
    AddedHaveNoLf(up, authorization);
    FlatOfPlain(Added(up, authorization));
    LfOfCrlf();
    LastIsOurs(LfLines(lines[0]), Flat(kept), up, authorization);
  }

  lemma FlatOfNew(first: string, kept: seq<string>, added: seq<string>)
    ensures Flat([first] + kept + added) == LfLines(first) + Flat(kept) + Flat(added)
  {
    hide LfLines;
    FlatConcat([first] + kept, added);
    FlatConcat([first], kept);
    assert [first][1..] == [] && Flat([first]) == LfLines(first) + Flat([]);
  }

  lemma AddedHaveNoLf(isUpgrade: bool, authorization: string)
    requires '\n' !in authorization
    ensures forall l :: l in Added(isUpgrade, authorization) ==> '\n' !in l
  {
  }

  lemma LfOfCrlf()
    ensures LfLines(CRLF) == ["", ""]
  {
    LfAppend("", "");
    assert "" + CRLF + "" == CRLF;
    OneLfLine("");
  }

  lemma LastIsOurs(first: seq<string>, kept: seq<string>, isUpgrade: bool, authorization: string)
    requires first != []
    ensures var out := first + kept + Added(isUpgrade, authorization) + ["", ""];
            && |out| > 3 && out[|out| - 3] == "Authorization: " + authorization
            && (SeesOnlyOurs(out) <==>
                !("" in first + kept || exists l :: l in first[1..] + kept && IsAuthorization(l)))
  {
    hide IsAuthorization, Added;
    TailIsOurs(isUpgrade, authorization);
    var added := Added(isUpgrade, authorization);
    var theirs := first[1..] + kept;
    assert [first[0]] + theirs == first + kept;
    OnlyInTail(first[0], theirs, added);
    assert [first[0]] + theirs + added + ["", ""] == first + kept + added + ["", ""];
  }

  lemma TailIsOurs(isUpgrade: bool, authorization: string)
    ensures var added := Added(isUpgrade, authorization);
            && |added| > 0 && added[|added| - 1] == "Authorization: " + authorization && "" !in added
            && forall i :: 0 <= i < |added| ==> (IsAuthorization(added[i]) <==> i == |added| - 1)
  {
    hide IsAuthorization, Dropped, IsUpgradeHeader;
    ConnectionName();
    AuthorizationName(authorization);
  }

  lemma OnlyInTail(first: string, theirs: seq<string>, added: seq<string>)
    requires |added| > 0 && "" !in added
    requires forall i :: 0 <= i < |added| ==> (IsAuthorization(added[i]) <==> i == |added| - 1)
    ensures var out := [first] + theirs + added + ["", ""];
            && |out| > 3 && out[|out| - 3] == added[|added| - 1]
            && (SeesOnlyOurs(out) <==>
                !("" in [first] + theirs || exists l :: l in theirs && IsAuthorization(l)))
  {
    hide IsAuthorization;
    var out := [first] + theirs + added + ["", ""];
    var head := UpToEmpty(out);
    if "" in [first] + theirs {
      EndsEarly([first] + theirs, added + ["", ""]);
      assert out == [first] + theirs + (added + ["", ""]);
    } else {
      EndsAtOurs([first] + theirs + added);
      assert head == [first] + theirs + added;
      SeenInFull(first, theirs, added);
    }
  }

  lemma SeenInFull(first: string, theirs: seq<string>, added: seq<string>)
    requires |added| > 0 && forall i :: 0 <= i < |added| ==> (IsAuthorization(added[i]) <==> i == |added| - 1)
    ensures var head := [first] + theirs + added;
            (forall i :: 0 < i < |head| ==> (IsAuthorization(head[i]) <==> i == |head| - 1))
            <==> !exists l :: l in theirs && IsAuthorization(l)
  {
    hide IsAuthorization;
    var head, n := [first] + theirs + added, 1 + |theirs|;
    assert forall i :: 0 <= i < |theirs| ==> head[i + 1] == theirs[i];
    assert forall i :: 0 <= i < |added| ==> head[n + i] == added[i];
    forall i | 0 < i < |head| ensures head[i] == if i < n then theirs[i - 1] else added[i - n] {
    }
    if l :| l in theirs && IsAuthorization(l) {
      var i :| 0 <= i < |theirs| && theirs[i] == l;
      assert head[i + 1] == l;
    }
  }

  lemma EndsEarly(a: seq<string>, b: seq<string>)
    requires "" in a
    ensures |UpToEmpty(a + b)| < |a|
  {
    hide UpToEmpty;
    var i :| 0 <= i < |a| && a[i] == "";
    var head := UpToEmpty(a + b);
    assert (a + b)[i] == "";
    assert forall k :: 0 <= k < |head| ==> head[k] in head && head[k] == (a + b)[k];
  }

  lemma {:induction false} EndsAtOurs(a: seq<string>)
    requires "" !in a
    ensures UpToEmpty(a + ["", ""]) == a
  {
    if a == [] {
      assert a + ["", ""] == ["", ""];
    } else {
      EndsAtOurs(a[1..]);
      assert (a + ["", ""])[1..] == a[1..] + ["", ""] && (a + ["", ""])[0] == a[0];
    }
  }

  /** A head without bare LFs is safe with such a relay. */
  lemma PlainHeadsAreSafe(head: string, authorization: string)
    requires Lines(head) != [] && '\n' !in authorization && forall l :: l in Lines(head) ==> '\n' !in l
    ensures SeesOnlyOurs(LfLines(RewriteSpec(head, authorization).head))
  {
    LfRelayExactlyWhen(head, authorization);
    hide LfLines, SeesOnlyOurs, Lines, Smuggles, IsUpgrade, Join, NewLines, IsAuthorization, Find;
    PlainLinesDoNotSmuggle(Lines(head), RewriteSpec(head, authorization).isUpgrade);
  }

  lemma PlainLinesDoNotSmuggle(lines: seq<string>, isUpgrade: bool)
    requires lines != [] && forall l :: l in lines ==> l != "" && '\n' !in l
    ensures !Smuggles(lines, isUpgrade)
  {
    hide LfLines, Flat, IsAuthorization, Kept, Dropped;
    var kept := Kept(lines[1..], isUpgrade);
    OneLfLine(lines[0]);
    forall l | l in kept ensures '\n' !in l && l != "" {
      assert l in lines[1..];
    }
    FlatOfPlain(kept);
    assert [lines[0]][1..] + kept == kept;
    NoneKept(lines[1..], isUpgrade);
  }

  const REQUEST_LINE: string := "GET / HTTP/1.1"

  /** A header whose value goes on after a bare LF. */
  function Cut(second: string): string {
    "X" + ": " + ("1" + LF + second)
  }

  function HeadWith(header: string): string {
    Join([REQUEST_LINE, header]) + CRLF
  }

  /** The head with such a header, whose value holds a bare LF, is read back as it was
      written and passed on as it is. */
  lemma PassedOn(value: string)
    requires Find("X" + ": " + value, CRLF).None?
    ensures var h := "X" + ": " + value;
            && Lines(HeadWith(h)) == [REQUEST_LINE, h] && Kept([h], false) == [h]
            && forall a :: !RewriteSpec(HeadWith(h), a).EmptyHead? && !RewriteSpec(HeadWith(h), a).isUpgrade
  {
    var h := "X" + ": " + value;
    FindLacks(REQUEST_LINE, CRLF);
    HasNoUpgrade(value);
    XIsKept(value);
    hide Find, Join, IsUpgradeHeader, Kept, Lines, RawName;
    LinesOfJoined([REQUEST_LINE, h]);
    assert [REQUEST_LINE, h][1..] == [h];
  }

  lemma HasNoUpgrade(value: string)
    ensures !IsUpgradeHeader("X" + ": " + value)
  {
    LengthsDiffer("X", "upgrade");
    hide Find, SameName;
    HeaderIs("X", value);
  }

  lemma XIsKept(value: string)
    ensures Kept(["X" + ": " + value], false) == ["X" + ": " + value]
  {
    hide Find, RawName;
    NameOf("X", value);
    assert Trim("X") == "X";
    LengthsDiffer("X", "authorization");
    LengthsDiffer("X", "connection");
    LengthsDiffer("X", "keep-alive");
    assert ["X" + ": " + value][..0] == [];
  }

  lemma LfLinesOf(before: string, after: string)
    requires '\n' !in before && '\n' !in after && '\r' !in before
    ensures LfLines(before + LF + after) == [before, after]
    ensures '\r' !in after ==> Find(before + LF + after, CRLF).None?
  {
    hide Find;
    var s := before + LF + after;
    assert s[|before|..|before| + 1] == LF;
    forall j | 0 <= j < |before| ensures !At(s, LF, j) {
      AtElement(s, LF, j, 0);
      assert s[j] == before[j] && before[j] in before;
    }
    FindIs(s, LF, |before|);
    assert s[..|before|] == before && s[|before| + 1..] == after;
    assert before != "" ==> before[|before| - 1] in before;
    OneLfLine(after);
    if '\r' !in after {
      assert '\r' !in s;
      FindLacks(s, CRLF);
    }
  }

  /** Such a header, whose second line is empty or an Authorization header, is not safe. */
  lemma CutHeaderIsNotSafe(second: string, authorization: string)
    requires '\n' !in authorization && '\n' !in second && '\r' !in second
    requires second == "" || IsAuthorization(second)
    ensures var r := RewriteSpec(HeadWith(Cut(second)), authorization);
            !r.EmptyHead? && !SeesOnlyOurs(LfLines(r.head))
  {
    hide LfLines, Kept, IsAuthorization, IsUpgradeHeader, SeesOnlyOurs, Lines, RewriteSpec, Find, HeadWith, Flat;
    var h := Cut(second);
    assert h == "X: 1" + LF + second;
    LfLinesOf("X: 1", second);
    PassedOn("1" + LF + second);
    LfRelayExactlyWhen(HeadWith(h), authorization);
    FlatOfOne(h);
    assert [REQUEST_LINE, h][1..] == [h];
    assert ["X: 1", second][1] == second;
    assert second in LfLines(REQUEST_LINE)[1..] + Flat([h]) && second in LfLines(REQUEST_LINE) + Flat([h]);
  }

  /** One that is not safe: the second half of the header passes, and such a relay sees
      it as an Authorization header. */
  lemma BareLfSlipsThrough(theirs: string, authorization: string)
    requires '\n' !in authorization && '\n' !in theirs && '\r' !in theirs
    ensures var r := RewriteSpec(HeadWith(Cut("Authorization: " + theirs)), authorization);
            !r.EmptyHead? && !SeesOnlyOurs(LfLines(r.head))
  {
    AuthorizationName(theirs);
    hide LfLines, IsAuthorization, IsUpgradeHeader, SeesOnlyOurs, RewriteSpec, HeadWith, Cut;
    CutHeaderIsNotSafe("Authorization: " + theirs, authorization);
  }

  /** Another: such a relay's head ends within the header, before ours. */
  lemma BareLfEndsTheHead(authorization: string)
    requires '\n' !in authorization
    ensures var r := RewriteSpec(HeadWith(Cut("")), authorization);
            !r.EmptyHead? && !SeesOnlyOurs(LfLines(r.head))
  {
    hide LfLines, IsAuthorization, SeesOnlyOurs, RewriteSpec, HeadWith, Cut;
    CutHeaderIsNotSafe("", authorization);
  }

  lemma FlatOfOne(l: string)
    ensures Flat([l]) == LfLines(l)
  {
    hide LfLines;
    assert [l][1..] == [];
  }
}
