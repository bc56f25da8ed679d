/** The grammar of distinguished names (section 3 of RFC 4514), for any way of reading and writing one attribute. */
module NameGrammar {
  import opened Wrappers
  import opened Radix
  import opened Sequences
  import opened Ascii
  import opened NameText

  datatype NameError =
    | TrailingBackslash | MissingEquals | UnsupportedAttribute | DuplicateAttribute
    | BadHex | BadDer | TruncatedEscape | BadEscape | MustEscape | BadUtf8 | BadString | BadCountry

  /** Reads the piece between two separators. */
  type Reader<A> = bytes -> Result<A, NameError>

  /** Holds of the texts that write an attribute. */
  type Writer<!A> = (bytes, A) -> bool

  /** A piece is read as the attribute it writes, and only then. */
  ghost predicate Agree<A(!new)>(read: Reader<A>, writes: Writer<A>) {
    forall part, a :: read(part) == Success(a) && Closed(part) <==> writes(part, a)
  }

  /** The current RDN with the attribute of `part`, which it must not have yet. */
  function Insert<A>(read: Reader<A>, part: bytes, attributes: set<A>): Result<set<A>, NameError> {
    match read(part)
    case Failure(error) => Failure(error)
    case Success(a) => if a in attributes then Failure(DuplicateAttribute) else Success(attributes + {a})
  }

  function Reverse<T>(s: seq<T>): seq<T> {
    seq(|s|, i requires 0 <= i < |s| => s[|s| - 1 - i])
  }

  /** Reads the pieces of `s` on top of the RDNs read so far and the attributes of the current one. */
  function ParseFrom<A>(read: Reader<A>, s: bytes, attributes: set<A>, rdns: seq<set<A>>)
    : Result<seq<set<A>>, NameError>
    decreases |s|
  {
    var k := CutFrom(s, 0);
    if k == |s| && Escaped(s) then Failure(TrailingBackslash)
    else
      match Insert(read, s[..k], attributes)
      case Failure(error) => Failure(error)
      case Success(more) =>
        if k == |s| then Success(Reverse(rdns + [more]))
        else if s[k] == COMMA then ParseFrom(read, s[k + 1..], {}, rdns + [more])
        else ParseFrom(read, s[k + 1..], more, rdns)
  }

  /** At a separator that no backslash escapes, the piece before it is read. */
  lemma ParseAtCut<A>(read: Reader<A>, s: bytes, k: nat, attributes: set<A>, rdns: seq<set<A>>)
    requires k == CutFrom(s, 0) < |s|
    ensures var inserted := Insert(read, s[..k], attributes);
            && (inserted.Failure? ==> ParseFrom(read, s, attributes, rdns) == Failure(inserted.error))
            && (inserted.Success? && s[k] == COMMA ==>
                  ParseFrom(read, s, attributes, rdns) == ParseFrom(read, s[k + 1..], {}, rdns + [inserted.value]))
            && (inserted.Success? && s[k] != COMMA ==>
                  ParseFrom(read, s, attributes, rdns) == ParseFrom(read, s[k + 1..], inserted.value, rdns))
  {
  }

  lemma ParseAtEnd<A>(read: Reader<A>, s: bytes, attributes: set<A>, rdns: seq<set<A>>)
    requires CutFrom(s, 0) == |s|
    ensures Escaped(s) ==> ParseFrom(read, s, attributes, rdns) == Failure(TrailingBackslash)
    ensures var inserted := Insert(read, s, attributes);
            && (!Escaped(s) && inserted.Failure? ==> ParseFrom(read, s, attributes, rdns) == Failure(inserted.error))
            && (!Escaped(s) && inserted.Success? ==>
                  ParseFrom(read, s, attributes, rdns) == Success(Reverse(rdns + [inserted.value])))
  {
    assert s[..|s|] == s;
  }

  /** No cut stands between `start` and `index`, and the flag is right. */
  ghost predicate Scanned(s: bytes, start: nat, index: nat, escaped: bool) {
    && start <= index <= |s| && escaped == Escaped(s[start..index])
    && CutFrom(s[start..], 0) == CutFrom(s[start..], index - start)
  }

  lemma ScanOne(s: bytes, start: nat, index: nat, escaped: bool)
    requires Scanned(s, start, index, escaped) && index < |s|
    ensures escaped || !IsSeparator(s[index]) ==> Scanned(s, start, index + 1, !escaped && s[index] == BACKSLASH)
    ensures !escaped && IsSeparator(s[index]) ==>
              && CutFrom(s[start..], 0) == index - start
              && s[start..][..index - start] == s[start..index] && s[start..][index - start + 1..] == s[index + 1..]
              && Scanned(s, index + 1, index + 1, false)
  {
    assert s[start..index + 1][..index - start] == s[start..index];
    assert s[start..][..index - start] == s[start..index];
    assert s[start..][index - start] == s[index];
  }

  /** What is left of `s` decides the result, given what has been read. */
  ghost predicate Continues<A>(
      result: Result<seq<set<A>>, NameError>, read: Reader<A>, rest: bytes, attributes: set<A>, rdns: seq<set<A>>)
  {
    result == ParseFrom(read, rest, attributes, rdns)
  }

  /** The piece that ends at a separator is read and the rest continues after it. */
  lemma CutContinues<A>(
      result: Result<seq<set<A>>, NameError>, read: Reader<A>, s: bytes, start: nat, index: nat,
      attributes: set<A>, rdns: seq<set<A>>)
    requires Scanned(s, start, index, false) && index < |s| && IsSeparator(s[index])
    requires Continues(result, read, s[start..], attributes, rdns)
    ensures var inserted := Insert(read, s[start..index], attributes);
            if inserted.Failure? then result == Failure(inserted.error)
            else if s[index] == COMMA then Continues(result, read, s[index + 1..], {}, rdns + [inserted.value])
            else Continues(result, read, s[index + 1..], inserted.value, rdns)
  {
    ScanOne(s, start, index, false);
    ParseAtCut(read, s[start..], index - start, attributes, rdns);
  }

  // --- Printed names -------------------------------------------------------------

  /** The first attribute's text, a separator, and the text of the rest. */
  ghost predicate Joins<A>(writes: Writer<A>, s: bytes, a: A, c: byte, head: bytes, tail: bytes) {
    s == head + [c] + tail && writes(head, a)
  }

  /** Every RDN has attributes, and there is an RDN. */
  ghost predicate NonEmpty<A>(rdns: seq<seq<A>>) {
    |rdns| > 0 && forall i | 0 <= i < |rdns| :: |rdns[i]| > 0
  }

  function Count<A>(rdns: seq<seq<A>>): nat {
    if |rdns| == 0 then 0 else |rdns[0]| + Count(rdns[1..])
  }

  /** The names that are left after the first attribute. */
  function Rest<A>(rdns: seq<seq<A>>): (r: seq<seq<A>>)
    requires |rdns| > 0 && |rdns[0]| > 0
    ensures Count(r) < Count(rdns)
  {
    if |rdns[0]| > 1 then [rdns[0][1..]] + rdns[1..] else rdns[1..]
  }

  /** `s` prints the RDNs in the order given: attributes joined by `+`, RDNs joined by `,`. */
  ghost predicate RendersName<A>(writes: Writer<A>, s: bytes, rdns: seq<seq<A>>)
    requires NonEmpty(rdns)
    decreases Count(rdns)
  {
    var a, rest := rdns[0][0], Rest(rdns);
    if |rest| == 0 then writes(s, a)
    else
      var c := if |rdns[0]| > 1 then PLUS else COMMA;
      exists head, tail :: Joins(writes, s, a, c, head, tail) && RendersName(writes, tail, rest)
  }

  ghost predicate Distinct<A>(rdn: seq<A>) {
    forall i, j | 0 <= i < j < |rdn| :: rdn[i] != rdn[j]
  }

  ghost predicate AllDistinct<A>(rdns: seq<seq<A>>) {
    forall i | 0 <= i < |rdns| :: Distinct(rdns[i])
  }

  function SetOf<A>(rdn: seq<A>): set<A> {
    set a | a in rdn
  }

  function SetsOf<A>(rdns: seq<seq<A>>): seq<set<A>> {
    seq(|rdns|, i requires 0 <= i < |rdns| => SetOf(rdns[i]))
  }

  /** `name` has the attributes of `rdns` as sets, the last RDN first. */
  ghost predicate IsReversal<A(!new)>(name: seq<set<A>>, rdns: seq<seq<A>>) {
    |name| == |rdns| && forall i, a | 0 <= i < |rdns| :: a in name[i] <==> a in rdns[|rdns| - 1 - i]
  }

  lemma ReversalIs<A(!new)>(name: seq<set<A>>, rdns: seq<seq<A>>)
    ensures name == Reverse(SetsOf(rdns)) <==> IsReversal(name, rdns)
  {
    if IsReversal(name, rdns) {
      forall i | 0 <= i < |rdns|
        ensures name[i] == SetOf(rdns[|rdns| - 1 - i])
      {
        assert forall a :: a in name[i] <==> a in rdns[|rdns| - 1 - i];
      }
    }
  }

  /** What reading the names leaves: the current RDN completed, the others after it. */
  function Finished<A>(attributes: set<A>, rdns: seq<seq<A>>): seq<set<A>>
    requires |rdns| > 0
  {
    [attributes + SetOf(rdns[0])] + SetsOf(rdns[1..])
  }

  ghost predicate Fits<A>(attributes: set<A>, rdns: seq<seq<A>>) {
    AllDistinct(rdns) && (|rdns| > 0 ==> forall i | 0 <= i < |rdns[0]| :: rdns[0][i] !in attributes)
  }

  lemma ParseFirst<A(!new)>(
      read: Reader<A>, writes: Writer<A>, head: bytes, a: A, c: byte, tail: bytes,
      attributes: set<A>, rdns: seq<set<A>>)
    requires Agree(read, writes)
    requires writes(head, a) && IsSeparator(c) && a !in attributes
    ensures ParseFrom(read, head + [c] + tail, attributes, rdns)
         == if c == COMMA then ParseFrom(read, tail, {}, rdns + [attributes + {a}])
            else ParseFrom(read, tail, attributes + {a}, rdns)
  {
    var s := head + [c] + tail;
    CutAfterPiece(head, c, tail);
    assert s[..|head|] == head && s[|head| + 1..] == tail;
    ParseAtCut(read, s, |head|, attributes, rdns);
  }

  lemma ParseLast<A(!new)>(read: Reader<A>, writes: Writer<A>, s: bytes, a: A, attributes: set<A>, rdns: seq<set<A>>)
    requires Agree(read, writes)
    requires writes(s, a) && a !in attributes
    ensures ParseFrom(read, s, attributes, rdns) == Success(Reverse(rdns + [attributes + {a}]))
  {
    UncutPiece(s);
    ParseAtEnd(read, s, attributes, rdns);
  }

  /** One more attribute of the current RDN. */
  lemma FinishSame<A>(attributes: set<A>, rdns: seq<seq<A>>)
    requires NonEmpty(rdns) && |rdns[0]| > 1
    ensures NonEmpty(Rest(rdns))
    ensures Finished(attributes + {rdns[0][0]}, Rest(rdns)) == Finished(attributes, rdns)
    ensures Fits(attributes, rdns) <==> rdns[0][0] !in attributes && Fits(attributes + {rdns[0][0]}, Rest(rdns))
  {
    var a, more, rest := rdns[0][0], rdns[0][1..], Rest(rdns);
    assert rdns[0] == [a] + more && rest[1..] == rdns[1..];
    assert {a} + SetOf(more) == SetOf(rdns[0]);
    assert attributes + {a} + SetOf(more) == attributes + SetOf(rdns[0]);
    DistinctCons(a, more);
    assert forall i | 1 <= i < |rdns| :: rest[i] == rdns[i];
  }

  lemma DistinctCons<A>(a: A, more: seq<A>)
    ensures Distinct([a] + more) <==> Distinct(more) && a !in more
  {
    var all := [a] + more;
    if Distinct(all) {
      forall i, j | 0 <= i < j < |more|
        ensures more[i] != more[j]
      {
        assert all[i + 1] != all[j + 1];
      }
      forall i | 0 <= i < |more|
        ensures more[i] != a
      {
        assert all[0] != all[i + 1];
      }
    }
  }

  /** The last attribute of the current RDN, with others to come. */
  lemma FinishNext<A>(attributes: set<A>, rdns: seq<seq<A>>)
    requires NonEmpty(rdns) && |rdns[0]| == 1 && |rdns| > 1
    ensures NonEmpty(Rest(rdns))
    ensures [attributes + {rdns[0][0]}] + Finished({}, Rest(rdns)) == Finished(attributes, rdns)
    ensures Fits(attributes, rdns) <==> rdns[0][0] !in attributes && Fits({}, Rest(rdns))
  {
    var a, rest := rdns[0][0], rdns[1..];
    assert rdns[0] == [a] && SetOf(rdns[0]) == {a};
    assert {} + SetOf(rest[0]) == SetOf(rest[0]);
    assert Finished({}, rest) == SetsOf(rest);
    assert rdns == [rdns[0]] + rest;
  }

  lemma FinishLast<A>(attributes: set<A>, rdns: seq<seq<A>>)
    requires NonEmpty(rdns) && |Rest(rdns)| == 0
    ensures Finished(attributes, rdns) == [attributes + {rdns[0][0]}]
    ensures Fits(attributes, rdns) <==> rdns[0][0] !in attributes
  {
    assert rdns[0] == [rdns[0][0]] && SetOf(rdns[0]) == {rdns[0][0]};
  }

  /** The result of parsing, with the sets and the reversal kept together. */
  ghost predicate Reads<A>(read: Reader<A>, s: bytes, attributes: set<A>, done: seq<set<A>>, rdns: seq<seq<A>>)
    requires |rdns| > 0
  {
    ParseFrom(read, s, attributes, done) == Success(Reverse(done + Finished(attributes, rdns)))
  }

  lemma ReadsSame<A(!new)>(
      read: Reader<A>, writes: Writer<A>, head: bytes, tail: bytes, rdns: seq<seq<A>>,
      attributes: set<A>, done: seq<set<A>>)
    requires Agree(read, writes)
    requires NonEmpty(rdns) && |rdns[0]| > 1 && writes(head, rdns[0][0])
    requires rdns[0][0] !in attributes && Reads(read, tail, attributes + {rdns[0][0]}, done, Rest(rdns))
    ensures Reads(read, head + [PLUS] + tail, attributes, done, rdns)
  {
    ParseFirst(read, writes, head, rdns[0][0], PLUS, tail, attributes, done);
    FinishSame(attributes, rdns);
  }

  lemma ReadsNext<A(!new)>(
      read: Reader<A>, writes: Writer<A>, head: bytes, tail: bytes, rdns: seq<seq<A>>,
      attributes: set<A>, done: seq<set<A>>)
    requires Agree(read, writes)
    requires NonEmpty(rdns) && |rdns[0]| == 1 && |rdns| > 1 && writes(head, rdns[0][0])
    requires rdns[0][0] !in attributes
    requires Reads(read, tail, {}, done + [attributes + {rdns[0][0]}], Rest(rdns))
    ensures Reads(read, head + [COMMA] + tail, attributes, done, rdns)
  {
    var more := attributes + {rdns[0][0]};
    ParseFirst(read, writes, head, rdns[0][0], COMMA, tail, attributes, done);
    FinishNext(attributes, rdns);
    Associate(done, [more], Finished({}, Rest(rdns)));
  }

  /** A printed name is read back, RDN by RDN and in reversed order. */
  lemma {:induction false} PrintedParses<A(!new)>(
      read: Reader<A>, writes: Writer<A>, s: bytes, rdns: seq<seq<A>>, attributes: set<A>, done: seq<set<A>>)
    requires Agree(read, writes)
    requires NonEmpty(rdns) && RendersName(writes, s, rdns) && Fits(attributes, rdns)
    ensures Reads(read, s, attributes, done, rdns)
    decreases Count(rdns)
  {
    var a, rest := rdns[0][0], Rest(rdns);
    if |rest| == 0 {
      FinishLast(attributes, rdns);
      ParseLast(read, writes, s, a, attributes, done);
    } else if |rdns[0]| > 1 {
      var head, tail :| Joins(writes, s, a, PLUS, head, tail) && RendersName(writes, tail, rest);
      FinishSame(attributes, rdns);
      PrintedParses(read, writes, tail, rest, attributes + {a}, done);
      ReadsSame(read, writes, head, tail, rdns, attributes, done);
    } else {
      var head, tail :| Joins(writes, s, a, COMMA, head, tail) && RendersName(writes, tail, rest);
      FinishNext(attributes, rdns);
      PrintedParses(read, writes, tail, rest, {}, done + [attributes + {a}]);
      ReadsNext(read, writes, head, tail, rdns, attributes, done);
    }
  }

  lemma ParsedLast<A(!new)>(read: Reader<A>, writes: Writer<A>, s: bytes, attributes: set<A>, done: seq<set<A>>)
    returns (a: A)
    requires Agree(read, writes)
    requires CutFrom(s, 0) == |s| && ParseFrom(read, s, attributes, done).Success?
    ensures writes(s, a) && a !in attributes
  {
    PieceIsClosed(s);
    ParseAtEnd(read, s, attributes, done);
    a := read(s).value;
  }

  lemma ParsedFirst<A(!new)>(read: Reader<A>, writes: Writer<A>, s: bytes, attributes: set<A>, done: seq<set<A>>)
    returns (a: A)
    requires Agree(read, writes)
    requires CutFrom(s, 0) < |s| && ParseFrom(read, s, attributes, done).Success?
    ensures var k := CutFrom(s, 0);
            && IsSeparator(s[k]) && Joins(writes, s, a, s[k], s[..k], s[k + 1..]) && a !in attributes
            && (s[k] == COMMA ==> ParseFrom(read, s[k + 1..], {}, done + [attributes + {a}]).Success?)
            && (s[k] == PLUS ==> ParseFrom(read, s[k + 1..], attributes + {a}, done).Success?)
  {
    var k := CutFrom(s, 0);
    PieceIsClosed(s);
    ParseAtCut(read, s, k, attributes, done);
    a := read(s[..k]).value;
    AroundCut(s, k);
  }

  lemma AroundCut<T>(s: seq<T>, k: nat)
    requires k < |s|
    ensures s == s[..k] + [s[k]] + s[k + 1..]
  {
  }

  lemma RendersNext<A>(writes: Writer<A>, s: bytes, a: A, head: bytes, tail: bytes, rest: seq<seq<A>>)
    requires NonEmpty(rest) && RendersName(writes, tail, rest) && Joins(writes, s, a, COMMA, head, tail)
    ensures NonEmpty([[a]] + rest) && Rest([[a]] + rest) == rest && RendersName(writes, s, [[a]] + rest)
  {
    assert ([[a]] + rest)[1..] == rest;
  }

  function Grown<A>(a: A, rest: seq<seq<A>>): seq<seq<A>>
    requires |rest| > 0
  {
    [[a] + rest[0]] + rest[1..]
  }

  lemma GrownBack<A>(a: A, rest: seq<seq<A>>)
    requires NonEmpty(rest)
    ensures var grown := Grown(a, rest);
            NonEmpty(grown) && |grown[0]| > 1 && grown[0][0] == a && Rest(grown) == rest
  {
    assert ([a] + rest[0])[1..] == rest[0] && Grown(a, rest)[1..] == rest[1..];
    assert [rest[0]] + rest[1..] == rest;
  }

  lemma RendersSame<A>(writes: Writer<A>, s: bytes, a: A, head: bytes, tail: bytes, rest: seq<seq<A>>)
    requires NonEmpty(rest) && RendersName(writes, tail, rest) && Joins(writes, s, a, PLUS, head, tail)
    ensures NonEmpty(Grown(a, rest)) && Rest(Grown(a, rest)) == rest && RendersName(writes, s, Grown(a, rest))
  {
    GrownBack(a, rest);
  }

  lemma {:induction false} ParsedIsPrinted<A(!new)>(
      read: Reader<A>, writes: Writer<A>, s: bytes, attributes: set<A>, done: seq<set<A>>)
    returns (rdns: seq<seq<A>>)
    requires Agree(read, writes)
    requires ParseFrom(read, s, attributes, done).Success?
    ensures NonEmpty(rdns) && RendersName(writes, s, rdns) && Fits(attributes, rdns)
    decreases |s|
  {
    var k := CutFrom(s, 0);
    if k == |s| {
      var a := ParsedLast(read, writes, s, attributes, done);
      rdns := [[a]];
      assert Rest(rdns) == [];
      FinishLast(attributes, rdns);
    } else {
      var a := ParsedFirst(read, writes, s, attributes, done);
      if s[k] == COMMA {
        var rest := ParsedIsPrinted(read, writes, s[k + 1..], {}, done + [attributes + {a}]);
        RendersNext(writes, s, a, s[..k], s[k + 1..], rest);
        rdns := [[a]] + rest;
        FinishNext(attributes, rdns);
      } else {
        var rest := ParsedIsPrinted(read, writes, s[k + 1..], attributes + {a}, done);
        RendersSame(writes, s, a, s[..k], s[k + 1..], rest);
        rdns := Grown(a, rest);
        FinishSame(attributes, rdns);
      }
    }
  }

  // --- Printing ------------------------------------------------------------------------

  lemma RestIsNonEmpty<A>(rdns: seq<seq<A>>)
    requires NonEmpty(rdns)
    ensures |Rest(rdns)| > 0 ==> NonEmpty(Rest(rdns))
  {
  }

  /** Prints the RDNs in the order given, each attribute as `text` says. */
  function PrintWith<A>(text: A -> bytes, rdns: seq<seq<A>>): bytes
    requires NonEmpty(rdns)
    decreases Count(rdns)
  {
    var first, rest := text(rdns[0][0]), Rest(rdns);
    if |rest| == 0 then first
    else
      RestIsNonEmpty(rdns);
      first + [if |rdns[0]| > 1 then PLUS else COMMA] + PrintWith(text, rest)
  }

  ghost predicate AllWritten<A>(writes: Writer<A>, text: A -> bytes, rdns: seq<seq<A>>) {
    forall i, j | 0 <= i < |rdns| && 0 <= j < |rdns[i]| :: writes(text(rdns[i][j]), rdns[i][j])
  }

  lemma RestIsWritten<A>(writes: Writer<A>, text: A -> bytes, rdns: seq<seq<A>>)
    requires NonEmpty(rdns) && AllWritten(writes, text, rdns)
    ensures writes(text(rdns[0][0]), rdns[0][0]) && AllWritten(writes, text, Rest(rdns))
  {
    var rest := Rest(rdns);
    forall i, j | 0 <= i < |rest| && 0 <= j < |rest[i]|
      ensures writes(text(rest[i][j]), rest[i][j])
    {
      if |rdns[0]| > 1 {
        assert rest[i][j] == if i == 0 then rdns[0][j + 1] else rdns[i][j];
      } else {
        assert rest[i][j] == rdns[i + 1][j];
      }
    }
  }

  /** Where every attribute has a text, the name has one. */
  lemma {:induction false} PrintWithPrints<A>(writes: Writer<A>, text: A -> bytes, rdns: seq<seq<A>>)
    requires NonEmpty(rdns) && AllWritten(writes, text, rdns)
    ensures RendersName(writes, PrintWith(text, rdns), rdns)
    decreases Count(rdns)
  {
    var a, rest := rdns[0][0], Rest(rdns);
    RestIsWritten(writes, text, rdns);
    if |rest| > 0 {
      RestIsNonEmpty(rdns);
      PrintWithPrints(writes, text, rest);
      assert Joins(writes, PrintWith(text, rdns), a, if |rdns[0]| > 1 then PLUS else COMMA,
                   text(a), PrintWith(text, rest));
    }
  }

  /** `s` prints some name, given as its RDNs in the order printed. */
  ghost predicate Prints<A>(writes: Writer<A>, s: bytes, rdns: seq<seq<A>>) {
    NonEmpty(rdns) && AllDistinct(rdns) && RendersName(writes, s, rdns)
  }

  /** Whatever way the RDNs were printed, parsing returns their attributes in reversed RDN order. */
  lemma PrintedNameParses<A(!new)>(read: Reader<A>, writes: Writer<A>, s: bytes, rdns: seq<seq<A>>)
    requires Agree(read, writes) && Prints(writes, s, rdns)
    ensures ParseFrom(read, s, {}, []) == Success(Reverse(SetsOf(rdns)))
  {
    PrintedParses(read, writes, s, rdns, {}, []);
    AllFinished(rdns);
    Empty(Finished({}, rdns));
  }

  lemma AllFinished<A>(rdns: seq<seq<A>>)
    requires |rdns| > 0
    ensures Finished({}, rdns) == SetsOf(rdns)
  {
    assert {} + SetOf(rdns[0]) == SetOf(rdns[0]);
  }

  /** Parsing accepts exactly the printed names with at least one RDN, and no empty RDN. */
  lemma ParsesIffPrinted<A(!new)>(read: Reader<A>, writes: Writer<A>, s: bytes, name: seq<set<A>>)
    requires Agree(read, writes)
    ensures ParseFrom(read, s, {}, []) == Success(name)
       <==> exists rdns :: Prints(writes, s, rdns) && name == Reverse(SetsOf(rdns))
  {
    if ParseFrom(read, s, {}, []) == Success(name) {
      var rdns := ParsedIsPrinted(read, writes, s, {}, []);
      PrintedNameParses(read, writes, s, rdns);
      assert Prints(writes, s, rdns);
    }
    if exists rdns :: Prints(writes, s, rdns) && name == Reverse(SetsOf(rdns)) {
      var rdns :| Prints(writes, s, rdns) && name == Reverse(SetsOf(rdns));
      PrintedNameParses(read, writes, s, rdns);
    }
  }
}
