/** PEM armor: writing one block, and finding the first wanted block of a bundle (section 3 of RFC 7468). */
module Pem {
  import opened Wrappers
  import opened Radix
  import opened Sequences
  import opened UriText
  import Base64

  const DASH: byte := 0x2d
  const NEWLINE: byte := 0x0a

  const DASHES: bytes := [DASH, DASH, DASH, DASH, DASH]
  const PROBE: bytes := [DASH, DASH, DASH, DASH, DASH, 0x42, 0x45, 0x47, 0x49, 0x4e]
  const BEGIN: bytes := [DASH, DASH, DASH, DASH, DASH, 0x42, 0x45, 0x47, 0x49, 0x4e, 0x20]
  const END: bytes := [DASH, DASH, DASH, DASH, DASH, 0x45, 0x4e, 0x44, 0x20]

  function EndMarker(title: bytes): bytes {
    END + title + DASHES
  }

  // --- Searching ------------------------------------------------------------------

  predicate At(s: bytes, needle: bytes, i: nat) {
    i + |needle| <= |s| && s[i..i + |needle|] == needle
  }

  /** The leftmost occurrence. */
  function Find(s: bytes, needle: bytes): (i: Option<nat>)
    ensures i.Some? ==> i.value + |needle| <= |s|
  {
    if At(s, needle, 0) then Some(0)
    else if |s| == 0 then None
    else
      match Find(s[1..], needle)
      case None => None
      case Some(i) => Some(i + 1)
  }

  lemma AtTail(s: bytes, needle: bytes, i: nat)
    requires |s| > 0
    ensures At(s[1..], needle, i) <==> At(s, needle, i + 1)
  {
    if i + 1 + |needle| <= |s| {
      assert s[1..][i..i + |needle|] == s[i + 1..i + 1 + |needle|];
    }
  }

  ghost predicate NotBefore(s: bytes, needle: bytes, i: nat) {
    forall k: nat | k < i :: !At(s, needle, k)
  }

  lemma {:induction false} FindIs(s: bytes, needle: bytes, i: nat)
    requires At(s, needle, i) && NotBefore(s, needle, i)
    ensures Find(s, needle) == Some(i)
  {
    if i > 0 {
      assert !At(s, needle, 0);
      if |s| > 0 {
        AtTail(s, needle, i - 1);
        forall k: nat | k < i - 1
          ensures !At(s[1..], needle, k)
        {
          AtTail(s, needle, k);
        }
        FindIs(s[1..], needle, i - 1);
      }
    }
  }

  lemma {:induction false} FindsSomething(s: bytes, needle: bytes, i: nat)
    requires At(s, needle, i)
    ensures Find(s, needle).Some?
  {
    if i > 0 && !At(s, needle, 0) && |s| > 0 {
      AtTail(s, needle, i - 1);
      FindsSomething(s[1..], needle, i - 1);
    }
  }

  lemma AtShows(s: bytes, needle: bytes, i: nat, k: nat)
    requires At(s, needle, i) && k < |needle|
    ensures s[i + k] == needle[k]
  {
    assert s[i..i + |needle|][k] == s[i + k];
  }

  // --- Reading a bundle ------------------------------------------------------------

  /** Drops every white space character. */
  function Strip(s: bytes): bytes
    decreases |s|
  {
    if |s| == 0 then []
    else if SpaceAtStart(s) > 0 then Strip(s[SpaceAtStart(s)..])
    else [s[0]] + Strip(s[1..])
  }

  function Contents(title: bytes, body: bytes): Option<(bytes, bytes)> {
    match Base64.Decode(Strip(body))
    case None => None
    case Some(octets) => Some((title, octets))
  }

  /** The text from the next line to the end marker. */
  function BodyOf(tail: bytes, marker: bytes): Option<bytes> {
    match Find(tail, [NEWLINE])
    case None => None
    case Some(line) =>
      var text := tail[line + 1..];
      match Find(text, marker)
      case None => None
      case Some(end) => Some(text[..end])
  }

  /** The wanted block whose label ends where `tail` begins. */
  function BlockOf(title: bytes, tail: bytes): Option<(bytes, bytes)> {
    match BodyOf(tail, EndMarker(title))
    case None => None
    case Some(body) => Contents(title, body)
  }

  /** The first block of `text`: its label, and the text from the dashes after it. */
  function FirstBlock(text: bytes): (r: Option<(bytes, bytes)>)
    ensures r.Some? ==> |r.value.1| < |text|
  {
    match Find(text, BEGIN)
    case None => None
    case Some(at) =>
      var rest := text[at + |BEGIN|..];
      match Find(rest, DASHES)
      case None => None
      case Some(n) => Some((rest[..n], rest[n..]))
  }

  /** What follows the block whose label ends where `tail` begins. */
  function AfterBlock(title: bytes, tail: bytes): (r: Option<bytes>)
    ensures r.Some? ==> |r.value| <= |tail|
  {
    match Find(tail, EndMarker(title))
    case None => None
    case Some(end) => Some(tail[end + |EndMarker(title)|..])
  }

  /** The first wanted block; blocks with other labels are passed over whole. */
  function Locate(text: bytes, labels: seq<bytes>): Option<(bytes, bytes)>
    decreases |text|
  {
    match FirstBlock(text)
    case None => None
    case Some((title, tail)) =>
      match AfterBlock(title, tail)
      case None => None
      case Some(rest) => if title in labels then Some((title, tail)) else Locate(rest, labels)
  }

  function Scan(text: bytes, labels: seq<bytes>): Option<(bytes, bytes)> {
    match Locate(text, labels)
    case None => None
    case Some((title, tail)) => BlockOf(title, tail)
  }

  /** Input that is no PEM text passes through. */
  function Decode(utf8: Utf8, input: bytes, labels: seq<bytes>): Option<(bytes, bytes)> {
    if utf8(input) && Find(input, PROBE).Some? then Scan(input, labels) else Some(([], input))
  }

  /** The label of the first block, and the text from the dashes after it. */
  method FindLabel(text: bytes) returns (r: Option<(bytes, bytes)>)
    ensures r == FirstBlock(text)
  {
    var at := Find(text, BEGIN);
    if at.None? {
      return None;
    }
    var rest := text[at.value + |BEGIN|..];
    var n := Find(rest, DASHES);
    return if n.None? then None else Some((rest[..n.value], rest[n.value..]));
  }

  method FindBody(tail: bytes, marker: bytes) returns (r: Option<bytes>)
    ensures r == BodyOf(tail, marker)
  {
    var line := Find(tail, [NEWLINE]);
    if line.None? {
      return None;
    }
    var text := tail[line.value + 1..];
    var end := Find(text, marker);
    return if end.None? then None else Some(text[..end.value]);
  }

  /** The loop over blocks; `rest` is the text from the cursor. */
  method LocateBlock(input: bytes, labels: seq<bytes>) returns (r: Option<(bytes, bytes)>)
    ensures r == Locate(input, labels)
  {
    var rest := input;
    while true
      invariant Locate(input, labels) == Locate(rest, labels)
      decreases |rest|
    {
      var found := FindLabel(rest);
      if found.None? {
        return None;
      }
      var (title, tail) := found.value;
      var after := AfterBlock(title, tail);
      if after.None? {
        return None;
      }
      if title in labels {
        return found;
      }
      rest := after.value;
    }
  }

  method PemDecode(utf8: Utf8, input: bytes, labels: seq<bytes>) returns (r: Option<(bytes, bytes)>)
    ensures r == Decode(utf8, input, labels)
  {
    if !utf8(input) || Find(input, PROBE).None? {
      return Some(([], input));
    }
    var found := LocateBlock(input, labels);
    if found.None? {
      return None;
    }
    var (title, tail) := found.value;
    var body := FindBody(tail, EndMarker(title));
    return if body.None? then None else Contents(title, body.value);
  }

  // --- Writing -----------------------------------------------------------------------

  /** The text in lines of at most 64 characters. */
  function Lines(text: bytes): bytes
    decreases |text|
  {
    if |text| == 0 then []
    else
      var n := if |text| < 64 then |text| else 64;
      text[..n] + [NEWLINE] + Lines(text[n..])
  }

  /** One block without the newline that ends it. */
  function BlockText(title: bytes, body: bytes): bytes {
    BEGIN + title + DASHES + [NEWLINE] + body + EndMarker(title)
  }

  function Encode(title: bytes, der: bytes): bytes {
    BlockText(title, Lines(Base64.Encode(der))) + [NEWLINE]
  }

  lemma NextLine(out: bytes, text: bytes, i: nat, end: nat)
    requires i < |text| && end == if |text| - i < 64 then |text| else i + 64
    ensures out + text[i..end] + [NEWLINE] + Lines(text[end..]) == out + Lines(text[i..])
  {
    assert text[i..][..end - i] == text[i..end] && text[i..][end - i..] == text[end..];
    Associate(out, text[i..end] + [NEWLINE], Lines(text[end..]));
    Associate(out, text[i..end], [NEWLINE]);
  }

  method AppendLines(head: bytes, text: bytes) returns (out: bytes)
    ensures out == head + Lines(text)
  {
    out := head;
    var i := 0;
    assert text[0..] == text;
    while i < |text|
      invariant 0 <= i <= |text|
      invariant out + Lines(text[i..]) == head + Lines(text)
    {
      var end := if |text| - i < 64 then |text| else i + 64;
      NextLine(out, text, i, end);
      out := out + text[i..end];
      out := out + [NEWLINE];
      i := end;
    }
    assert text[i..] == [] && out + [] == out;
  }

  /** Wraps DER in a PEM block, 64 characters to a line. */
  method PemEncode(title: bytes, der: bytes) returns (out: bytes)
    ensures out == Encode(title, der)
  {
    out := BEGIN + title + DASHES + [NEWLINE];
    out := AppendLines(out, Base64.Encode(der));
    ghost var text: bytes := out;
    out := out + (END + title + DASHES + [NEWLINE]);
    Associate(text, EndMarker(title), [NEWLINE]);
    assert END + title + DASHES + [NEWLINE] == EndMarker(title) + [NEWLINE];
  }

  // --- Bundles -----------------------------------------------------------------------

  /** Text, then a block. */
  datatype Entry = Entry(before: bytes, title: bytes, body: bytes)

  /** The needle ends the text and occurs nowhere before. */
  ghost predicate EndsAtFirst(s: bytes, needle: bytes) {
    && |needle| <= |s| && At(s, needle, |s| - |needle|)
    && NotBefore(s, needle, |s| - |needle|)
  }

  /** From the dashes after the label to the end of the block. */
  function Block(title: bytes, body: bytes): bytes {
    DASHES + [NEWLINE] + body + EndMarker(title)
  }

  /**
   No BEGIN marker hides before the block, and the dashes after its label and
   its end marker are the first there are. The body may have dashes of its own.
   */
  ghost predicate Clear(e: Entry) {
    && Find(e.before, BEGIN).None?
    && EndsAtFirst(e.title + DASHES, DASHES) && EndsAtFirst(Block(e.title, e.body), EndMarker(e.title))
  }

  ghost predicate AllClear(entries: seq<Entry>, trailer: bytes) {
    Find(trailer, BEGIN).None? && forall i | 0 <= i < |entries| :: Clear(entries[i])
  }

  function Bundle(entries: seq<Entry>, trailer: bytes): bytes {
    if |entries| == 0 then trailer
    else entries[0].before + BlockText(entries[0].title, entries[0].body) + Bundle(entries[1..], trailer)
  }

  lemma {:induction false} FindMisses(s: bytes, needle: bytes, i: nat)
    requires Find(s, needle).None?
    ensures !At(s, needle, i)
  {
    if At(s, needle, i) {
      FindsSomething(s, needle, i);
    }
  }

  /** A marker cannot begin in the text before it: only its last character is a space. */
  lemma FindBegin(before: bytes, rest: bytes)
    requires Find(before, BEGIN).None?
    ensures Find(before + BEGIN + rest, BEGIN) == Some(|before|)
  {
    var s := before + BEGIN + rest;
    forall i: nat | i < |before|
      ensures !At(s, BEGIN, i)
    {
      if i + 11 <= |before| {
        FindMisses(before, BEGIN, i);
        assert s[i..i + 11] == before[i..i + 11];
      } else {
        assert s[i + 10] == BEGIN[i + 10 - |before|];
        if At(s, BEGIN, i) {
          AtShows(s, BEGIN, i, 10);
        }
      }
    }
    assert s[|before|..|before| + |BEGIN|] == BEGIN;
    FindIs(s, BEGIN, |before|);
  }

  lemma SliceOf<T>(s: seq<T>, rest: seq<T>, k: nat, i: nat, n: nat)
    requires k + i + n <= |s|
    ensures (s + rest)[k..][i..i + n] == s[k + i..k + i + n]
  {
  }

  lemma AtFront(s: bytes, rest: bytes, needle: bytes, k: nat, i: nat)
    requires k + i + |needle| <= |s|
    ensures At((s + rest)[k..], needle, i) <==> At(s, needle, k + i)
  {
    SliceOf(s, rest, k, i, |needle|);
  }

  lemma NotBeforeFront(s: bytes, rest: bytes, needle: bytes, k: nat, n: nat)
    requires k + n + |needle| <= |s| && NotBefore(s, needle, k + n)
    ensures NotBefore((s + rest)[k..], needle, n)
  {
    forall i: nat | i < n
      ensures !At((s + rest)[k..], needle, i)
    {
      AtFront(s, rest, needle, k, i);
    }
  }

  /** Nothing that follows can change where the needle is found first. */
  lemma FindFirst(s: bytes, rest: bytes, needle: bytes, k: nat)
    requires EndsAtFirst(s, needle) && k + |needle| <= |s|
    ensures Find((s + rest)[k..], needle) == Some(|s| - |needle| - k)
  {
    var n := |s| - |needle| - k;
    AtFront(s, rest, needle, k, n);
    NotBeforeFront(s, rest, needle, k, n);
    FindIs((s + rest)[k..], needle, n);
  }

  lemma MarkerStarts(title: bytes, k: nat)
    requires k < 6
    ensures |EndMarker(title)| > 6 && EndMarker(title)[k] == (if k < 5 then DASH else 0x45)
  {
  }

  /** Single dashes, as in encapsulated headers, but never five in a row, and none at the end. */
  ghost predicate Harmless(body: bytes) {
    (|body| > 0 ==> body[|body| - 1] != DASH) && forall i: nat :: !At(body, DASHES, i)
  }

  /** An end marker that begins inside the body shows in its dashes. */
  lemma MarkerNeedsDashes(title: bytes, body: bytes, i: nat)
    requires 6 <= i < 6 + |body| && At(Block(title, body), EndMarker(title), i)
    ensures At(body, DASHES, i - 6) || body[|body| - 1] == DASH
  {
    var s, marker := Block(title, body), EndMarker(title);
    MarkerBegins(title);
    assert s[i..i + |marker|][..5] == s[i..i + 5];
    if i + 5 <= 6 + |body| {
      assert s[i..i + 5] == body[i - 6..i - 1];
    } else {
      AtShows(s, marker, i, 5 + |body| - i);
      MarkerStarts(title, 5 + |body| - i);
    }
  }

  lemma MarkerBegins(title: bytes)
    ensures |EndMarker(title)| > 6 && EndMarker(title)[..5] == DASHES
  {
  }

  /** Such a body does not anticipate the end marker, and neither do the dashes after the label. */
  lemma HarmlessBody(title: bytes, body: bytes)
    requires Harmless(body)
    ensures EndsAtFirst(Block(title, body), EndMarker(title))
  {
    var marker, s := EndMarker(title), Block(title, body);
    forall i: nat | i < 6 + |body|
      ensures !At(s, marker, i)
    {
      if i < 6 {
        var k := 5 - i;
        MarkerStarts(title, k);
        if At(s, marker, i) {
          AtShows(s, marker, i, k);
        }
      } else if At(s, marker, i) {
        MarkerNeedsDashes(title, body, i);
      }
    }
    assert s[6 + |body|..6 + |body| + |marker|] == marker;
  }

  lemma NoDashIsHarmless(body: bytes)
    requires DASH !in body
    ensures Harmless(body)
  {
    forall i: nat
      ensures !At(body, DASHES, i)
    {
      if At(body, DASHES, i) {
        AtShows(body, DASHES, i, 0);
      }
    }
  }

  lemma PlainLabel(title: bytes)
    requires DASH !in title
    ensures EndsAtFirst(title + DASHES, DASHES)
  {
    var s := title + DASHES;
    forall i: nat | i < |title|
      ensures !At(s, DASHES, i)
    {
      assert s[i] == title[i];
      if At(s, DASHES, i) {
        AtShows(s, DASHES, i, 0);
      }
    }
    assert s[|title|..|title| + 5] == DASHES;
  }

  /** Blocks are clear when their labels have no dashes and their bodies are harmless, headers included. */
  lemma HarmlessIsClear(e: Entry)
    requires Find(e.before, BEGIN).None? && DASH !in e.title && Harmless(e.body)
    ensures Clear(e)
  {
    PlainLabel(e.title);
    HarmlessBody(e.title, e.body);
  }

  lemma FindLineEnd(rest: bytes)
    ensures Find(DASHES + [NEWLINE] + rest, [NEWLINE]) == Some(5)
  {
    var s := DASHES + [NEWLINE] + rest;
    assert s[5..6] == [NEWLINE];
    forall i: nat | i < 5
      ensures !At(s, [NEWLINE], i)
    {
      assert s[i] == DASH;
    }
    FindIs(s, [NEWLINE], 5);
  }

  lemma BlockTextIs(title: bytes, body: bytes)
    ensures BlockText(title, body) == BEGIN + (title + Block(title, body))
  {
  }

  lemma Unfold<T>(a: seq<T>, b: seq<T>, c: seq<T>, d: seq<T>, rest: seq<T>)
    ensures a + (b + (c + d)) + rest == a + b + (c + (d + rest))
    ensures (a + b + (c + (d + rest)))[|a| + |b|..] == c + (d + rest)
  {
  }

  lemma FirstOfEntry(e: Entry, rest: bytes)
    requires Clear(e)
    ensures FirstBlock(e.before + BlockText(e.title, e.body) + rest) == Some((e.title, Block(e.title, e.body) + rest))
  {
    var tail := Block(e.title, e.body) + rest;
    BlockTextIs(e.title, e.body);
    Unfold(e.before, BEGIN, e.title, Block(e.title, e.body), rest);
    FindBegin(e.before, e.title + tail);
    LabelOfEntry(e.title, e.body, rest);
    TakeDrop(e.title, tail);
  }

  lemma LabelOfEntry(title: bytes, body: bytes, rest: bytes)
    requires EndsAtFirst(title + DASHES, DASHES)
    ensures Find(title + (Block(title, body) + rest), DASHES) == Some(|title|)
  {
    LabelEnds(title, [NEWLINE] + body + EndMarker(title) + rest);
    assert Block(title, body) + rest == DASHES + ([NEWLINE] + body + EndMarker(title) + rest);
  }

  lemma LabelEnds(title: bytes, rest: bytes)
    requires EndsAtFirst(title + DASHES, DASHES)
    ensures Find(title + (DASHES + rest), DASHES) == Some(|title|)
  {
    FindFirst(title + DASHES, rest, DASHES, 0);
    Associate(title, DASHES, rest);
    assert (title + DASHES + rest)[0..] == title + DASHES + rest;
  }

  lemma BlockOfTail(title: bytes, body: bytes, rest: bytes)
    requires EndsAtFirst(Block(title, body), EndMarker(title))
    ensures BlockOf(title, Block(title, body) + rest) == Contents(title, body)
  {
    var tail, after := Block(title, body) + rest, body + EndMarker(title) + rest;
    assert tail == DASHES + [NEWLINE] + after && tail[6..] == after;
    FindLineEnd(after);
    FindFirst(Block(title, body), rest, EndMarker(title), 6);
    assert after[..|body|] == body;
  }

  lemma ScanEntry(e: Entry, rest: bytes, labels: seq<bytes>)
    requires Clear(e)
    ensures Scan(e.before + BlockText(e.title, e.body) + rest, labels)
         == if e.title in labels then Contents(e.title, e.body) else Scan(rest, labels)
  {
    FirstOfEntry(e, rest);
    FindFirst(Block(e.title, e.body), rest, EndMarker(e.title), 0);
    assert (Block(e.title, e.body) + rest)[0..] == Block(e.title, e.body) + rest;
    BlockOfTail(e.title, e.body, rest);
    TakeDrop(Block(e.title, e.body), rest);
  }

  /** The first entry with a wanted label, or their number. */
  function FirstWanted(entries: seq<Entry>, labels: seq<bytes>): (i: nat)
    ensures i <= |entries|
    ensures i < |entries| ==> entries[i].title in labels
    ensures forall j | 0 <= j < i :: entries[j].title !in labels
  {
    if |entries| == 0 || entries[0].title in labels then 0 else 1 + FirstWanted(entries[1..], labels)
  }

  function Wanted(entries: seq<Entry>, labels: seq<bytes>): Option<(bytes, bytes)> {
    var i := FirstWanted(entries, labels);
    if i < |entries| then Contents(entries[i].title, entries[i].body) else None
  }

  lemma {:induction false} ScanBundle(entries: seq<Entry>, trailer: bytes, labels: seq<bytes>)
    requires AllClear(entries, trailer)
    ensures Scan(Bundle(entries, trailer), labels) == Wanted(entries, labels)
  {
    if |entries| > 0 {
      ScanEntry(entries[0], Bundle(entries[1..], trailer), labels);
      ScanBundle(entries[1..], trailer, labels);
    }
  }

  lemma HasProbe(e: Entry, rest: bytes)
    ensures Find(e.before + BlockText(e.title, e.body) + rest, PROBE).Some?
  {
    var s := e.before + BlockText(e.title, e.body) + rest;
    assert s[|e.before|..|e.before| + 10] == PROBE;
    FindsSomething(s, PROBE, |e.before|);
  }

  /** Decoding a bundle returns the first block with a wanted label, whatever stands between the blocks. */
  lemma DecodesFirstWanted(utf8: Utf8, entries: seq<Entry>, trailer: bytes, labels: seq<bytes>)
    requires |entries| > 0 && AllClear(entries, trailer) && utf8(Bundle(entries, trailer))
    ensures Decode(utf8, Bundle(entries, trailer), labels) == Wanted(entries, labels)
  {
    HasProbe(entries[0], Bundle(entries[1..], trailer));
    ScanBundle(entries, trailer, labels);
  }

  // --- Round trip ----------------------------------------------------------------------

  predicate NoSpaces(s: bytes) {
    forall i | 0 <= i < |s| :: NeverSpace(s[i])
  }

  lemma StripKeeps(c: byte, s: bytes)
    requires NeverSpace(c)
    ensures Strip([c] + s) == [c] + Strip(s)
  {
    forall n: nat
      ensures n > 0 ==> !StartsWithSpace([c] + s, n)
    {
      if n > 0 && StartsWithSpace([c] + s, n) {
        NeverInSpace(([c] + s)[..n], 0);
      }
    }
    assert ([c] + s)[1..] == s;
  }

  lemma {:induction false} StripConcat(a: bytes, b: bytes)
    requires NoSpaces(a)
    ensures Strip(a + b) == a + Strip(b)
  {
    if |a| == 0 {
      assert a + b == b && a + Strip(b) == Strip(b);
    } else {
      StripConcat(a[1..], b);
      StripKeeps(a[0], a[1..] + b);
      Uncons(a, b);
      Uncons(a, Strip(b));
    }
  }

  lemma Uncons(a: bytes, b: bytes)
    requires |a| > 0
    ensures a + b == [a[0]] + (a[1..] + b)
  {
  }

  lemma StripNewline(s: bytes)
    ensures Strip([NEWLINE] + s) == Strip(s)
  {
    assert ([NEWLINE] + s)[..1] == [NEWLINE] && ([NEWLINE] + s)[1..] == s;
    assert IsSpace([NEWLINE]);
  }

  lemma {:induction false} StripLines(text: bytes)
    requires NoSpaces(text)
    ensures Strip(Lines(text)) == text
    decreases |text|
  {
    if |text| > 0 {
      var n := if |text| < 64 then |text| else 64;
      StripLines(text[n..]);
      StripConcat(text[..n], [NEWLINE] + Lines(text[n..]));
      StripNewline(Lines(text[n..]));
      Associate(text[..n], [NEWLINE], Lines(text[n..]));
      SplitAt(text, n);
    }
  }

  lemma {:induction false} LinesHaveNoDash(text: bytes)
    requires DASH !in text
    ensures DASH !in Lines(text)
    decreases |text|
  {
    if |text| > 0 {
      LinesHaveNoDash(text[if |text| < 64 then |text| else 64..]);
    }
  }

  lemma TextIsPlain(der: bytes)
    ensures NoSpaces(Base64.Encode(der)) && DASH !in Base64.Encode(der)
  {
    forall i | 0 <= i < |Base64.Encode(der)|
      ensures NeverSpace(Base64.Encode(der)[i]) && Base64.Encode(der)[i] != DASH
    {
      Base64.EncodingIsText(der, i);
    }
  }

  /** The body of a written block yields its DER. */
  lemma ContentsOfLines(title: bytes, der: bytes)
    ensures DASH !in Lines(Base64.Encode(der))
    ensures Contents(title, Lines(Base64.Encode(der))) == Some((title, der))
  {
    TextIsPlain(der);
    LinesHaveNoDash(Base64.Encode(der));
    StripLines(Base64.Encode(der));
    Base64.DecodeIffEncode(Base64.Encode(der), der);
  }

  /** Decoding undoes encoding, for any label before the first dashes, whatever harmless text comes first. */
  lemma DecodeUndoesEncode(utf8: Utf8, before: bytes, title: bytes, der: bytes, labels: seq<bytes>)
    requires Find(before, BEGIN).None? && EndsAtFirst(title + DASHES, DASHES) && title in labels
    requires utf8(before + Encode(title, der))
    ensures Decode(utf8, before + Encode(title, der), labels) == Some((title, der))
  {
    var e := Entry(before, title, Lines(Base64.Encode(der)));
    ContentsOfLines(title, der);
    NoDashIsHarmless(e.body);
    HarmlessBody(title, e.body);
    BundleOfOne(e);
    Associate(before, BlockText(title, e.body), [NEWLINE]);
    DecodesFirstWanted(utf8, [e], [NEWLINE], labels);
    assert Wanted([e], labels) == Contents(title, e.body);
  }

  lemma BundleOfOne(e: Entry)
    ensures Bundle([e], [NEWLINE]) == e.before + BlockText(e.title, e.body) + [NEWLINE]
  {
    assert [e][1..] == [];
  }
}
