/**
 * What the HTML normaliser writes, read as XML (src/core/html_normalize.hpp): the text is well-formed
 * exactly when the tags and the text runs of the input are ones that XML can say, and then it says
 * the normalised tags.
 */
module HtmlXml {
  import opened Bytes
  import opened Json
  import opened Markup
  import opened Yaml
  import opened Html
  import opened HtmlScan
  import M = Manifest
  import X = Xml

  // ------------------------------------------------------------ named entities

  /** Printable ASCII. */
  predicate Ascii7(s: Text) {
    forall i :: 0 <= i < |s| ==> 0x20 <= s[i] <= 0x7E
  }

  function Marks(name: Text): (r: Option<Text>)
    ensures r.Some? ==> X.Plain(r.value) && Ascii7(name)
  {
    if name == M.Ascii("nbsp") then Some([0x20])
    else if name == M.Ascii("mdash") then Some([0xE2, 0x80, 0x94])
    else if name == M.Ascii("ndash") then Some([0xE2, 0x80, 0x93])
    else if name == M.Ascii("hellip") then Some([0xE2, 0x80, 0xA6])
    else if name == M.Ascii("shy") then Some([])
    else if name == M.Ascii("bull") then Some([0xE2, 0x80, 0xA2])
    else if name == M.Ascii("middot") then Some([0xC2, 0xB7])
    else None
  }

  function Quotes(name: Text): (r: Option<Text>)
    ensures r.Some? ==> X.Plain(r.value) && Ascii7(name)
  {
    if name == M.Ascii("quot") then Some([0x22])
    else if name == M.Ascii("apos") then Some([0x27])
    else if name == M.Ascii("lsquo") then Some([0xE2, 0x80, 0x98])
    else if name == M.Ascii("rsquo") then Some([0xE2, 0x80, 0x99])
    else if name == M.Ascii("ldquo") then Some([0xE2, 0x80, 0x9C])
    else if name == M.Ascii("rdquo") then Some([0xE2, 0x80, 0x9D])
    else if name == M.Ascii("laquo") then Some([0xC2, 0xAB])
    else if name == M.Ascii("raquo") then Some([0xC2, 0xBB])
    else None
  }

  function Signs(name: Text): (r: Option<Text>)
    ensures r.Some? ==> X.Plain(r.value) && Ascii7(name)
  {
    if name == M.Ascii("copy") then Some([0xC2, 0xA9])
    else if name == M.Ascii("reg") then Some([0xC2, 0xAE])
    else if name == M.Ascii("trade") then Some([0xE2, 0x84, 0xA2])
    else if name == M.Ascii("euro") then Some([0xE2, 0x82, 0xAC])
    else if name == M.Ascii("pound") then Some([0xC2, 0xA3])
    else if name == M.Ascii("deg") then Some([0xC2, 0xB0])
    else if name == M.Ascii("times") then Some([0xC3, 0x97])
    else None
  }

  function Vowels(name: Text): (r: Option<Text>)
    ensures r.Some? ==> X.Plain(r.value) && Ascii7(name)
  {
    if name == M.Ascii("eacute") then Some([0xC3, 0xA9])
    else if name == M.Ascii("egrave") then Some([0xC3, 0xA8])
    else if name == M.Ascii("agrave") then Some([0xC3, 0xA0])
    else if name == M.Ascii("uuml") then Some([0xC3, 0xBC])
    else if name == M.Ascii("ouml") then Some([0xC3, 0xB6])
    else if name == M.Ascii("auml") then Some([0xC3, 0xA4])
    else None
  }

  function Consonants(name: Text): (r: Option<Text>)
    ensures r.Some? ==> X.Plain(r.value) && Ascii7(name)
  {
    if name == M.Ascii("szlig") then Some([0xC3, 0x9F])
    else if name == M.Ascii("ccedil") then Some([0xC3, 0xA7])
    else if name == M.Ascii("ntilde") then Some([0xC3, 0xB1])
    else None
  }

  function Footnotes(name: Text): (r: Option<Text>)
    ensures r.Some? ==> X.Plain(r.value) && Ascii7(name)
  {
    if name == M.Ascii("sect") then Some([0xC2, 0xA7])
    else if name == M.Ascii("para") then Some([0xC2, 0xB6])
    else if name == M.Ascii("dagger") then Some([0xE2, 0x80, 0xA0])
    else if name == M.Ascii("permil") then Some([0xE2, 0x80, 0xB0])
    else if name == M.Ascii("prime") then Some([0xE2, 0x80, 0xB2])
    else None
  }

  function Figures(name: Text): (r: Option<Text>)
    ensures r.Some? ==> X.Plain(r.value) && Ascii7(name)
  {
    if name == M.Ascii("frac12") then Some([0xC2, 0xBD])
    else if name == M.Ascii("frac14") then Some([0xC2, 0xBC])
    else if name == M.Ascii("sup2") then Some([0xC2, 0xB2])
    else if name == M.Ascii("sup3") then Some([0xC2, 0xB3])
    else if name == M.Ascii("larr") then Some([0xE2, 0x86, 0x90])
    else if name == M.Ascii("rarr") then Some([0xE2, 0x86, 0x92])
    else if name == M.Ascii("harr") then Some([0xE2, 0x86, 0x94])
    else None
  }

  // Each entity stands for the code point the HTML standard gives it; `nbsp` becomes a space and `shy` nothing.

  lemma MdashAndNdash()
    ensures Marks(M.Ascii("mdash")) == Some(Utf8Bytes(0x2014))
    ensures Marks(M.Ascii("ndash")) == Some(Utf8Bytes(0x2013))
  {
    assert M.Ascii("mdash")[0] == 0x6D && M.Ascii("ndash")[0] == 0x6E;
  }

  lemma HellipAndBull()
    ensures Marks(M.Ascii("hellip")) == Some(Utf8Bytes(0x2026))
    ensures Marks(M.Ascii("bull")) == Some(Utf8Bytes(0x2022))
  {
    assert M.Ascii("bull")[0] == 0x62 && M.Ascii("nbsp")[0] == 0x6E;
  }

  lemma Middot()
    ensures Marks(M.Ascii("middot")) == Some(Utf8Bytes(0x00B7))
  {
    assert M.Ascii("hellip")[0] == 0x68 && M.Ascii("middot")[0] == 0x6D;
  }

  lemma QuotAndApos()
    ensures Quotes(M.Ascii("quot")) == Some(Utf8Bytes(0x0022))
    ensures Quotes(M.Ascii("apos")) == Some(Utf8Bytes(0x0027))
  {
    assert M.Ascii("apos")[0] == 0x61 && M.Ascii("quot")[0] == 0x71;
  }

  lemma LsquoAndRsquo()
    ensures Quotes(M.Ascii("lsquo")) == Some(Utf8Bytes(0x2018))
    ensures Quotes(M.Ascii("rsquo")) == Some(Utf8Bytes(0x2019))
  {
    assert M.Ascii("lsquo")[0] == 0x6C && M.Ascii("rsquo")[0] == 0x72;
  }

  lemma LdquoAndRdquo()
    ensures Quotes(M.Ascii("ldquo")) == Some(Utf8Bytes(0x201C))
    ensures Quotes(M.Ascii("rdquo")) == Some(Utf8Bytes(0x201D))
  {
    assert M.Ascii("ldquo")[0] == 0x6C && M.Ascii("ldquo")[1] == 0x64 && M.Ascii("lsquo")[0] == 0x6C &&
      M.Ascii("lsquo")[1] == 0x73 && M.Ascii("rdquo")[0] == 0x72 && M.Ascii("rdquo")[1] == 0x64 && M.Ascii("rsquo")[0] == 0x72 &&
      M.Ascii("rsquo")[1] == 0x73;
  }

  lemma LaquoAndRaquo()
    ensures Quotes(M.Ascii("laquo")) == Some(Utf8Bytes(0x00AB))
    ensures Quotes(M.Ascii("raquo")) == Some(Utf8Bytes(0x00BB))
  {
    assert M.Ascii("laquo")[0] == 0x6C && M.Ascii("laquo")[1] == 0x61 && M.Ascii("ldquo")[0] == 0x6C &&
      M.Ascii("ldquo")[1] == 0x64 && M.Ascii("lsquo")[0] == 0x6C && M.Ascii("lsquo")[1] == 0x73 && M.Ascii("raquo")[0] == 0x72 &&
      M.Ascii("raquo")[1] == 0x61 && M.Ascii("rdquo")[0] == 0x72 && M.Ascii("rdquo")[1] == 0x64 && M.Ascii("rsquo")[0] == 0x72 &&
      M.Ascii("rsquo")[1] == 0x73;
  }

  lemma CopyAndReg()
    ensures Signs(M.Ascii("copy")) == Some(Utf8Bytes(0x00A9))
    ensures Signs(M.Ascii("reg")) == Some(Utf8Bytes(0x00AE))
  {
  }

  lemma TradeAndEuro()
    ensures Signs(M.Ascii("trade")) == Some(Utf8Bytes(0x2122))
    ensures Signs(M.Ascii("euro")) == Some(Utf8Bytes(0x20AC))
  {
    assert M.Ascii("copy")[0] == 0x63 && M.Ascii("euro")[0] == 0x65;
  }

  lemma PoundAndDeg()
    ensures Signs(M.Ascii("pound")) == Some(Utf8Bytes(0x00A3))
    ensures Signs(M.Ascii("deg")) == Some(Utf8Bytes(0x00B0))
  {
    assert M.Ascii("deg")[0] == 0x64 && M.Ascii("pound")[0] == 0x70 && M.Ascii("reg")[0] == 0x72 &&
      M.Ascii("trade")[0] == 0x74;
  }

  lemma Times()
    ensures Signs(M.Ascii("times")) == Some(Utf8Bytes(0x00D7))
  {
    assert M.Ascii("pound")[0] == 0x70 && M.Ascii("times")[0] == 0x74 && M.Ascii("times")[1] == 0x69 &&
      M.Ascii("trade")[1] == 0x72;
  }

  lemma EacuteAndEgrave()
    ensures Vowels(M.Ascii("eacute")) == Some(Utf8Bytes(0x00E9))
    ensures Vowels(M.Ascii("egrave")) == Some(Utf8Bytes(0x00E8))
  {
    assert M.Ascii("eacute")[1] == 0x61 && M.Ascii("egrave")[1] == 0x67;
  }

  lemma AgraveAndUuml()
    ensures Vowels(M.Ascii("agrave")) == Some(Utf8Bytes(0x00E0))
    ensures Vowels(M.Ascii("uuml")) == Some(Utf8Bytes(0x00FC))
  {
    assert M.Ascii("agrave")[0] == 0x61 && M.Ascii("eacute")[0] == 0x65 && M.Ascii("egrave")[0] == 0x65;
  }

  lemma OumlAndAuml()
    ensures Vowels(M.Ascii("ouml")) == Some(Utf8Bytes(0x00F6))
    ensures Vowels(M.Ascii("auml")) == Some(Utf8Bytes(0x00E4))
  {
    assert M.Ascii("auml")[0] == 0x61 && M.Ascii("ouml")[0] == 0x6F && M.Ascii("uuml")[0] == 0x75;
  }

  lemma SzligAndCcedil()
    ensures Consonants(M.Ascii("szlig")) == Some(Utf8Bytes(0x00DF))
    ensures Consonants(M.Ascii("ccedil")) == Some(Utf8Bytes(0x00E7))
  {
  }

  lemma Ntilde()
    ensures Consonants(M.Ascii("ntilde")) == Some(Utf8Bytes(0x00F1))
  {
    assert M.Ascii("ccedil")[0] == 0x63 && M.Ascii("ntilde")[0] == 0x6E;
  }

  lemma SectAndPara()
    ensures Footnotes(M.Ascii("sect")) == Some(Utf8Bytes(0x00A7))
    ensures Footnotes(M.Ascii("para")) == Some(Utf8Bytes(0x00B6))
  {
    assert M.Ascii("para")[0] == 0x70 && M.Ascii("sect")[0] == 0x73;
  }

  lemma DaggerAndPermil()
    ensures Footnotes(M.Ascii("dagger")) == Some(Utf8Bytes(0x2020))
    ensures Footnotes(M.Ascii("permil")) == Some(Utf8Bytes(0x2030))
  {
    assert M.Ascii("dagger")[0] == 0x64 && M.Ascii("permil")[0] == 0x70;
  }

  lemma Prime()
    ensures Footnotes(M.Ascii("prime")) == Some(Utf8Bytes(0x2032))
  {
  }

  lemma Frac12AndFrac14()
    ensures Figures(M.Ascii("frac12")) == Some(Utf8Bytes(0x00BD))
    ensures Figures(M.Ascii("frac14")) == Some(Utf8Bytes(0x00BC))
  {
    assert M.Ascii("frac12")[5] == 0x32 && M.Ascii("frac14")[5] == 0x34;
  }

  lemma Sup2AndSup3()
    ensures Figures(M.Ascii("sup2")) == Some(Utf8Bytes(0x00B2))
    ensures Figures(M.Ascii("sup3")) == Some(Utf8Bytes(0x00B3))
  {
    assert M.Ascii("sup2")[3] == 0x32 && M.Ascii("sup3")[3] == 0x33;
  }

  lemma LarrAndRarr()
    ensures Figures(M.Ascii("larr")) == Some(Utf8Bytes(0x2190))
    ensures Figures(M.Ascii("rarr")) == Some(Utf8Bytes(0x2192))
  {
    assert M.Ascii("larr")[0] == 0x6C && M.Ascii("rarr")[0] == 0x72 && M.Ascii("sup2")[0] == 0x73 &&
      M.Ascii("sup3")[0] == 0x73;
  }

  lemma Harr()
    ensures Figures(M.Ascii("harr")) == Some(Utf8Bytes(0x2194))
  {
    assert M.Ascii("harr")[0] == 0x68 && M.Ascii("larr")[0] == 0x6C && M.Ascii("rarr")[0] == 0x72 &&
      M.Ascii("sup2")[0] == 0x73 && M.Ascii("sup3")[0] == 0x73;
  }

  /** `named_entity`. */
  function Entity(name: Text): (r: Option<Text>) {
    if name == M.Ascii("amp") then Some(AMP_TEXT)
    else if name == M.Ascii("lt") then Some(LT_TEXT)
    else if name == M.Ascii("gt") then Some(GT_TEXT)
    else if Marks(name).Some? then Marks(name)
    else if Quotes(name).Some? then Quotes(name)
    else if Signs(name).Some? then Signs(name)
    else if Vowels(name).Some? then Vowels(name)
    else if Consonants(name).Some? then Consonants(name)
    else if Footnotes(name).Some? then Footnotes(name)
    else Figures(name)
  }

  /** The text of an entity is plain, or one of the escapes. */
  ghost predicate Readable(v: Text) {
    v == AMP_TEXT || v == LT_TEXT || v == GT_TEXT || X.Plain(v)
  }

  /** What an XML reader makes of it. */
  ghost function Meant(v: Text): Text {
    if v == AMP_TEXT then [AMP] else if v == LT_TEXT then [LT] else if v == GT_TEXT then [GT] else v
  }

  ghost predicate Sound(named: Named) {
    forall n :: named(n).Some? ==> Readable(named(n).value) && X.AllLegal(n)
  }

  lemma EntitiesAreSound()
    ensures Sound(Entity)
  {
    hide X.Plain;
    forall n | Entity(n).Some? ensures Readable(Entity(n).value) && X.AllLegal(n) {
      hide Marks, Quotes, Signs, Vowels, Consonants, Footnotes, Figures;
    }
  }

  // ------------------------------------------------------------ text

  /** What one written piece means. */
  ghost function Said(t: Text, i: nat, named: Named): Option<Text>
    requires i < |t|
  {
    if t[i] == AMP && Reference(t, i, named).Some? then
      var r := Reference(t, i, named).value;
      var name := t[i + 1..r.1];
      if !IsNumeric(name) then Some(Meant(r.0)) else if X.IsCharRef(name) then X.Meaning(name) else None
    else if X.Legal(t[i]) then Some([t[i]])
    else None
  }

  /** What text says once its references are resolved. */
  ghost function Resolved(t: Text, i: nat, named: Named): Text
    requires i <= |t|
    decreases |t| - i
  {
    if i == |t| then []
    else
      var said := Said(t, i, named);
      (if said.Some? then said.value else []) + Resolved(t, PieceAt(t, i, named).1, named)
  }

  /** Every step from `i` on means something. */
  ghost predicate SaysFrom(t: Text, i: nat, named: Named)
    requires i <= |t|
    decreases |t| - i
  {
    i == |t| || (Said(t, i, named).Some? && SaysFrom(t, PieceAt(t, i, named).1, named))
  }

  /** Text that XML can say: legal characters, and numeric references to legal characters. */
  ghost predicate GoodText(t: Text, named: Named) {
    X.AllLegal(t) && forall r :: r in NumericRefs(t, 0, named) ==> X.IsCharRef(r)
  }

  /** What a reference in the input is. */
  lemma ReferenceIs(t: Text, i: nat, named: Named)
    requires i < |t| && t[i] == AMP && Reference(t, i, named).Some?
    ensures var r := Reference(t, i, named).value; var name := t[i + 1..r.1];
      SEMI !in name && t[r.1] == SEMI &&
      if IsNumeric(name) then r.0 == [AMP] + name + [SEMI] else named(name) == Some(r.0)
  {
    FindByteFirst(t, SEMI, i + 1);
  }

  lemma {:induction false} FindByteFirst(t: Text, c: byte, from: nat)
    requires from <= |t|
    ensures c !in t[from..FindByte(t, c, from)] && (FindByte(t, c, from) < |t| ==> t[FindByte(t, c, from)] == c)
    decreases |t| - from
  {
    if from < |t| && t[from] != c {
      FindByteFirst(t, c, from + 1);
      var end := FindByte(t, c, from);
      assert t[from..end] == [t[from]] + t[from + 1..end];
    }
  }

  lemma EscapesMean()
    ensures X.Meaning(M.Ascii("amp")) == Some([AMP]) && X.Meaning(M.Ascii("lt")) == Some([LT])
    ensures X.Meaning(M.Ascii("gt")) == Some([GT]) && X.Meaning(M.Ascii("quot")) == Some([QUOTE])
    ensures SEMI !in M.Ascii("amp") && SEMI !in M.Ascii("lt") && SEMI !in M.Ascii("gt") && SEMI !in M.Ascii("quot")
    ensures AMP_TEXT == [AMP] + M.Ascii("amp") + [SEMI] && LT_TEXT == [AMP] + M.Ascii("lt") + [SEMI]
    ensures GT_TEXT == [AMP] + M.Ascii("gt") + [SEMI] && QUOT_TEXT == [AMP] + M.Ascii("quot") + [SEMI]
  {
    var a, l, g, q := M.Ascii("amp"), M.Ascii("lt"), M.Ascii("gt"), M.Ascii("quot");
    assert a[0] == 0x61 && l[0] == 0x6C && g[0] == 0x67 && q[0] == 0x71;
  }

  lemma ReadEscapes(rest: Text)
    ensures X.Read(AMP_TEXT + rest) == X.Behind(X.Chars([AMP]), X.Read(rest))
    ensures X.Read(LT_TEXT + rest) == X.Behind(X.Chars([LT]), X.Read(rest))
    ensures X.Read(GT_TEXT + rest) == X.Behind(X.Chars([GT]), X.Read(rest))
  {
    EscapesMean();
    hide M.Ascii, X.Meaning, X.Read;
    X.ReadReference(M.Ascii("amp"), rest);
    X.ReadReference(M.Ascii("lt"), rest);
    X.ReadReference(M.Ascii("gt"), rest);
  }

  lemma ReadReadable(v: Text, rest: Text)
    requires Readable(v)
    ensures X.Read(v + rest) == X.Behind(X.Chars(Meant(v)), X.Read(rest))
  {
    hide M.Ascii, X.Read, X.Plain;
    ReadEscapes(rest);
    if v != AMP_TEXT && v != LT_TEXT && v != GT_TEXT { X.ReadPlain(v, rest); }
  }

  lemma NumericMeaning(name: Text)
    requires IsNumeric(name)
    ensures X.Meaning(name).Some? <==> X.IsCharRef(name)
  {
    hide X.IsCharRef, X.CodePoint;
    var a, l, g, q, p := M.Ascii("amp"), M.Ascii("lt"), M.Ascii("gt"), M.Ascii("quot"), M.Ascii("apos");
    assert a[0] == 0x61 && l[0] == 0x6C && g[0] == 0x67 && q[0] == 0x71 && p[0] == 0x61;
  }

  /** Reading what one step wrote. */
  lemma ReadPiece(t: Text, i: nat, named: Named, rest: Text)
    requires i < |t| && Sound(named)
    ensures var said := Said(t, i, named);
      X.Read(PieceAt(t, i, named).0 + rest) == if said.None? then None else X.Behind(X.Chars(said.value), X.Read(rest))
  {
    hide M.Ascii, X.Read, X.Meaning, X.IsCharRef, Reference, Readable, Meant;
    ReadEscapes(rest);
    if t[i] == AMP && Reference(t, i, named).Some? {
      var r := Reference(t, i, named).value;
      var name := t[i + 1..r.1];
      ReferenceIs(t, i, named);
      if IsNumeric(name) {
        X.ReadReference(name, rest);
        NumericMeaning(name);
      } else {
        ReadReadable(r.0, rest);
      }
    } else if t[i] != LT && t[i] != GT && t[i] != AMP {
      X.ReadByte(t[i], rest);
    }
  }

  /** Written text reads as what it says, if it says anything at all. */
  lemma {:induction false} ReadText(t: Text, i: nat, named: Named, rest: Text)
    requires i <= |t| && Sound(named)
    ensures X.Read(HtmlScan.Escaped(t, i, named) + rest) ==
      if SaysFrom(t, i, named) then X.Behind(X.Chars(Resolved(t, i, named)), X.Read(rest)) else None
    decreases |t| - i
  {
    hide PieceAt, Said, X.Read, X.Chars, X.Behind;
    if i == |t| {
      EscapedEnd(t, named);
      NothingRead(rest);
    } else {
      var p := PieceAt(t, i, named);
      var more := HtmlScan.Escaped(t, p.1, named);
      assert (p.0 + more) + rest == p.0 + (more + rest);
      ReadPiece(t, i, named, more + rest);
      ReadText(t, p.1, named, rest);
      var said := Said(t, i, named);
      if said.Some? {
        X.CharsConcat(said.value, Resolved(t, p.1, named));
        X.BehindTwice(X.Chars(said.value), X.Chars(Resolved(t, p.1, named)), X.Read(rest));
        NoneBehind(X.Chars(said.value));
      }
    }
  }

  lemma NothingRead(rest: Text)
    ensures X.Read([] + rest) == X.Behind(X.Chars([]), X.Read(rest))
  {
    assert [] + rest == rest && X.Chars([]) == [];
    if X.Read(rest).Some? { assert [] + X.Read(rest).value == X.Read(rest).value; }
  }

  lemma NoneBehind(items: seq<X.Item>)
    ensures X.Behind(items, None) == None
  {
  }

  lemma CharRefIsLegal(name: Text)
    requires X.IsCharRef(name)
    ensures X.AllLegal(name)
  {
    hide X.Number;
  }

  /** What a step asks of the bytes it passes: legal ones, and a good reference if it is a numeric one. */
  lemma PieceSays(t: Text, i: nat, named: Named)
    requires i < |t| && Sound(named)
    ensures var next := PieceAt(t, i, named).1;
      Said(t, i, named).Some? <==>
        X.AllLegal(t[i..next]) && forall r :: r in RefsAt(t, i, named) ==> X.IsCharRef(r)
  {
    hide Reference, X.IsCharRef, X.AllLegal, M.Ascii, Readable, Meant, X.Meaning;
    if t[i] == AMP && Reference(t, i, named).Some? {
      var r := Reference(t, i, named).value;
      var name := t[i + 1..r.1];
      ReferenceIs(t, i, named);
      LegalReference(t, i, r.1);
      if IsNumeric(name) {
        NumericMeaning(name);
        assert name in RefsAt(t, i, named);
        if X.IsCharRef(name) { CharRefIsLegal(name); }
      }
    } else {
      LegalByte(t, i);
    }
  }

  /** Every step means something exactly when the text is good from there on. */
  lemma {:induction false} SaysExactly(t: Text, i: nat, named: Named)
    requires i <= |t| && Sound(named)
    ensures SaysFrom(t, i, named) <==>
      X.AllLegal(t[i..]) && forall r :: r in NumericRefs(t, i, named) ==> X.IsCharRef(r)
    decreases |t| - i
  {
    hide PieceAt, Said, X.IsCharRef, X.AllLegal, Sound, RefsAt;
    if i == |t| {
      LegalParts(t, i, i);
    } else {
      var next := PieceAt(t, i, named).1;
      PieceSays(t, i, named);
      LegalParts(t, i, next);
      SaysExactly(t, next, named);
    }
  }

  lemma LegalParts(t: Text, i: nat, k: nat)
    requires i <= k <= |t|
    ensures X.AllLegal(t[i..]) <==> X.AllLegal(t[i..k]) && X.AllLegal(t[k..])
    ensures X.AllLegal(t[|t|..])
  {
    assert t[i..] == t[i..k] + t[k..];
    LegalConcat(t[i..k], t[k..]);
  }

  lemma LegalConcat(a: Text, b: Text)
    ensures X.AllLegal(a + b) <==> X.AllLegal(a) && X.AllLegal(b)
  {
    var ab := a + b;
    if X.AllLegal(ab) {
      assert forall i :: 0 <= i < |a| ==> a[i] == ab[i];
      assert forall i :: 0 <= i < |b| ==> b[i] == ab[|a| + i];
    }
  }

  lemma LegalByte(t: Text, i: nat)
    requires i < |t|
    ensures X.AllLegal(t[i..i + 1]) <==> X.Legal(t[i])
    ensures t[i] == LT || t[i] == GT || t[i] == AMP ==> X.Legal(t[i])
  {
    assert t[i..i + 1] == [t[i]];
  }

  lemma LegalReference(t: Text, i: nat, semi: nat)
    requires i < semi < |t| && t[i] == AMP && t[semi] == SEMI
    ensures X.AllLegal(t[i..semi + 1]) <==> X.AllLegal(t[i + 1..semi])
  {
    assert t[i..semi + 1] == [AMP] + t[i + 1..semi] + [SEMI];
    LegalConcat([AMP] + t[i + 1..semi], [SEMI]);
    LegalConcat([AMP], t[i + 1..semi]);
  }

  // ------------------------------------------------------------ attributes

  lemma ValueByte(c: byte, rest: Text)
    ensures var r := X.ReadValue(rest, QUOTE);
      X.ReadValue(EscapedValueByte(c) + rest, QUOTE) ==
        if !X.Legal(c) || r.None? then None else Some(([c] + r.value.0, r.value.1))
  {
    EscapesMean();
    hide M.Ascii, X.Meaning, X.ReadRef;
    if c == AMP { ValueEscape(M.Ascii("amp"), c, rest); }
    else if c == LT { ValueEscape(M.Ascii("lt"), c, rest); }
    else if c == GT { ValueEscape(M.Ascii("gt"), c, rest); }
    else if c == QUOTE { ValueEscape(M.Ascii("quot"), c, rest); }
    else { assert ([c] + rest)[1..] == rest; }
  }

  lemma ValueEscape(name: Text, c: byte, rest: Text)
    requires X.Meaning(name) == Some([c]) && SEMI !in name
    ensures var r := X.ReadValue(rest, QUOTE);
      X.ReadValue([AMP] + name + [SEMI] + rest, QUOTE) == if r.None? then None else Some(([c] + r.value.0, r.value.1))
  {
    hide X.Meaning, X.ReadRef;
    var t := [AMP] + name + [SEMI] + rest;
    assert t[1..] == name + [SEMI] + rest;
    X.ReadRefOf(name, rest);
  }

  /** A written value reads as the value it was written from. */
  lemma {:induction false} ReadValueOf(v: Text, rest: Text)
    ensures X.ReadValue(EscapedValue(v) + ([QUOTE] + rest), QUOTE) == if X.AllLegal(v) then Some((v, rest)) else None
  {
    hide EscapedValueByte, X.AllLegal, X.ReadValue;
    if v == [] {
      assert [] + ([QUOTE] + rest) == [QUOTE] + rest;
      ValueEnds(rest);
      LegalParts(v, 0, 0);
    } else {
      var first, more := EscapedValueByte(v[0]), EscapedValue(v[1..]) + ([QUOTE] + rest);
      assert EscapedValue(v) + ([QUOTE] + rest) == first + more;
      ReadValueOf(v[1..], rest);
      ValueByte(v[0], more);
      LegalParts(v, 0, 1);
      LegalByte(v, 0);
      assert v[0..] == v && [v[0]] + v[1..] == v;
    }
  }

  lemma ValueEnds(rest: Text)
    ensures X.ReadValue([QUOTE] + rest, QUOTE) == Some(([], rest))
  {
    assert ([QUOTE] + rest)[1..] == rest;
  }

  ghost predicate AllValid(attrs: seq<Attr>) {
    forall i :: 0 <= i < |attrs| ==> ValidName(attrs[i].name)
  }

  predicate LegalValues(attrs: seq<Attr>) {
    forall i :: 0 <= i < |attrs| ==> X.AllLegal(attrs[i].value)
  }

  lemma ValidIsName(n: Text)
    requires ValidName(n)
    ensures X.IsName(n) && n != [] && !X.Space(n[0]) && X.NameStart(n[0])
  {
  }

  lemma ReadAttrOf(a: Attr, rest: Text)
    requires ValidName(a.name)
    ensures X.ReadAttr(a.name + ([EQ, QUOTE] + (EscapedValue(a.value) + ([QUOTE] + rest)))) ==
      if X.AllLegal(a.value) then Some((a, rest)) else None
  {
    hide ValidName, X.IsName, EscapedValue, X.ReadValue, X.ReadName, X.AllLegal;
    var v := EscapedValue(a.value) + ([QUOTE] + rest);
    var eq := [EQ, QUOTE] + v;
    ValidIsName(a.name);
    X.ReadNameOf(a.name, eq);
    X.NoSpaces(eq);
    assert eq[1..] == [QUOTE] + v && ([QUOTE] + v)[1..] == v;
    X.NoSpaces([QUOTE] + v);
    ReadValueOf(a.value, rest);
  }

  /** One written attribute, and what stands behind it. */
  ghost function WrittenAttr(a: Attr, rest: Text): Text {
    [SPACE] + (a.name + ([EQ, QUOTE] + (EscapedValue(a.value) + ([QUOTE] + rest))))
  }

  lemma ReadAttrsStep(a: Attr, rest: Text)
    requires ValidName(a.name)
    ensures var r := X.ReadAttrs(rest);
      X.ReadAttrs(WrittenAttr(a, rest)) ==
        if !X.AllLegal(a.value) || r.None? then None else Some(([a] + r.value.0, r.value.1))
  {
    hide ValidName, EscapedValue, X.AllLegal, X.ReadAttr, X.NameStart;
    var u := a.name + ([EQ, QUOTE] + (EscapedValue(a.value) + ([QUOTE] + rest)));
    ReadAttrOf(a, rest);
    ValidIsName(a.name);
    assert ([SPACE] + u)[1..] == u && u[0] == a.name[0];
    X.NoSpaces(u);
    assert X.AfterSpaces([SPACE] + u) == u;
  }

  lemma AttrsTextUnfold(attrs: seq<Attr>, tail: Text)
    requires attrs != []
    ensures AttrsText(attrs) + tail == WrittenAttr(attrs[0], AttrsText(attrs[1..]) + tail)
  {
    hide EscapedValue;
  }

  /** Written attributes read as the attributes they were written from. */
  lemma {:induction false} ReadAttrsOf(attrs: seq<Attr>, tail: Text)
    requires AllValid(attrs) && tail != [] && (tail[0] == GT || tail[0] == SLASH)
    ensures X.ReadAttrs(AttrsText(attrs) + tail) == if LegalValues(attrs) then Some((attrs, tail)) else None
    decreases |attrs|
  {
    hide ValidName, X.AllLegal, X.ReadAttrs, AttrsText, WrittenAttr, LegalValues;
    if attrs == [] {
      NoAttrsRead(tail);
    } else {
      ReadAttrsOf(attrs[1..], tail);
      ReadAttrsStep(attrs[0], AttrsText(attrs[1..]) + tail);
      AttrsTextUnfold(attrs, tail);
      assert attrs == [attrs[0]] + attrs[1..];
      LegalValuesUnfold(attrs);
    }
  }

  lemma NoAttrsRead(tail: Text)
    requires tail != [] && (tail[0] == GT || tail[0] == SLASH)
    ensures X.ReadAttrs(AttrsText([]) + tail) == Some(([], tail)) && LegalValues([])
  {
    assert AttrsText([]) + tail == tail;
    X.NoSpaces(tail);
  }

  lemma LegalValuesUnfold(attrs: seq<Attr>)
    requires attrs != []
    ensures LegalValues(attrs) <==> X.AllLegal(attrs[0].value) && LegalValues(attrs[1..])
  {
    hide X.AllLegal;
    assert forall i :: 0 < i < |attrs| ==> attrs[i] == attrs[1..][i - 1];
  }

  // ------------------------------------------------------------ tags

  /** What the scanner takes for a tag name: anything from a letter up to white space or the end of the tag. */
  ghost predicate TagShape(name: Text) {
    name != [] && IsAlpha(name[0]) && GT !in name && forall i :: 0 <= i < |name| ==> !IsSpaceByte(name[i])
  }

  /** From behind a tag's name on, the rest of the tag. */
  lemma ReadGoodStart(name: Text, attrs: seq<Attr>, tail: Text)
    requires X.IsName(name) && AllValid(attrs) && tail != [] && (tail[0] == GT || tail[0] == SLASH)
    ensures X.ReadStart(name + (AttrsText(attrs) + tail)) ==
      if LegalValues(attrs) then X.ReadTagEnd(name, attrs, tail) else None
  {
    hide X.IsName, X.ReadAttrs, X.ReadTagEnd, LegalValues, X.ReadName, EscapedValue;
    X.ReadNameOf(name, AttrsText(attrs) + tail);
    ReadAttrsOf(attrs, tail);
  }

  lemma ReadGoodOpen(name: Text, attrs: seq<Attr>, rest: Text)
    requires X.IsName(name) && AllValid(attrs)
    ensures X.Read([LT] + name + AttrsText(attrs) + [GT] + rest) ==
      if LegalValues(attrs) && X.Distinct(attrs) then X.Behind([X.Start(name, attrs)], X.Read(rest)) else None
  {
    hide X.Read, X.ReadStart, X.ReadEnd, LegalValues, AttrsText, X.Distinct;
    var tail := [GT] + rest;
    var t := [LT] + name + AttrsText(attrs) + [GT] + rest;
    ReadGoodStart(name, attrs, tail);
    NameFirst(name);
    assert t[1..] == name + (AttrsText(attrs) + tail) && t[1] == name[0] && tail[1..] == rest;
    X.ReadUnfold(t);
  }

  lemma ReadGoodEmpty(name: Text, attrs: seq<Attr>, rest: Text)
    requires X.IsName(name) && AllValid(attrs)
    ensures X.Read([LT] + name + AttrsText(attrs) + [SLASH, GT] + rest) ==
      if LegalValues(attrs) && X.Distinct(attrs) then X.Behind([X.Empty(name, attrs)], X.Read(rest)) else None
  {
    hide X.Read, X.ReadStart, X.ReadEnd, LegalValues, AttrsText, X.Distinct;
    var tail := [SLASH, GT] + rest;
    var t := [LT] + name + AttrsText(attrs) + [SLASH, GT] + rest;
    ReadGoodStart(name, attrs, tail);
    NameFirst(name);
    assert t[1..] == name + (AttrsText(attrs) + tail) && t[1] == name[0] && tail[2..] == rest;
    X.ReadUnfold(t);
  }

  lemma NameFirst(name: Text)
    requires X.IsName(name)
    ensures name != [] && name[0] != SLASH
  {
  }

  lemma ReadGoodClose(name: Text, rest: Text)
    requires X.IsName(name)
    ensures X.Read([LT, SLASH] + name + [GT] + rest) == X.Behind([X.End(name)], X.Read(rest))
  {
    hide X.Read, X.ReadStart, X.ReadName, X.IsName;
    var t := [LT, SLASH] + name + [GT] + rest;
    var tail := [GT] + rest;
    X.ReadNameOf(name, tail);
    X.NoSpaces(tail);
    assert t[2..] == name + tail && tail[1..] == rest;
    X.ReadUnfold(t);
  }

  /** Where a name stops being one. */
  lemma {:induction false} NameRunInside(n: Text, rest: Text)
    requires X.NameRun(n) < |n|
    ensures X.NameRun(n + rest) == X.NameRun(n)
  {
    hide X.NameByte;
    if X.NameByte(n[0]) {
      assert (n + rest)[1..] == n[1..] + rest;
      NameRunInside(n[1..], rest);
    }
  }

  lemma {:induction false} NameRunWhole(n: Text)
    ensures X.NameRun(n) == |n| ==> forall i :: 0 <= i < |n| ==> X.NameByte(n[i])
  {
    hide X.NameByte;
    if n != [] && X.NameByte(n[0]) { NameRunWhole(n[1..]); }
  }

  /** A name that is none breaks off at a byte that cannot follow a name. */
  lemma BadName(name: Text, more: Text)
    requires TagShape(name) && !X.IsName(name)
    ensures var k := X.NameRun(name);
      0 < k < |name| && name[k] != GT && X.ReadName(name + more) == Some((name[..k], name[k..] + more)) &&
      X.AfterSpaces(name[k..] + more) == name[k..] + more && X.ReadAttrs(name[k..] + more) == Some(([], name[k..] + more))
  {
    NameRunWhole(name);
    assert X.NameStart(name[0]) && X.NameByte(name[0]);
    var k := X.NameRun(name);
    NameRunInside(name, more);
    assert (name + more)[..k] == name[..k] && (name + more)[k..] == name[k..] + more;
    assert !X.Space(name[k]);
    X.NoSpaces(name[k..] + more);
  }

  /** A tag with such a name cannot be read, or is read as another, without attributes, that is empty. */
  lemma ReadBadOpen(name: Text, attrs: seq<Attr>, rest: Text)
    requires TagShape(name) && !X.IsName(name)
    ensures X.Read([LT] + name + AttrsText(attrs) + [GT] + rest).Some? ==> X.Read(rest).Some?
  {
    hide X.Read, X.ReadEnd, X.ReadAttrs, X.ReadName, X.IsName, X.NameRun, X.NameByte, EscapedValue;
    var more := AttrsText(attrs) + ([GT] + rest);
    var t := [LT] + name + AttrsText(attrs) + [GT] + rest;
    BadName(name, more);
    var k := X.NameRun(name);
    var u := name[k..] + more;
    assert t[1..] == name + more && t[1] == name[0] != SLASH;
    X.ReadUnfold(t);
    AttrsStart(attrs, [GT] + rest);
    assert u[1] == if k + 1 < |name| then name[k + 1] else more[0];
    assert k + 1 == |name| && attrs == [] ==> u[2..] == rest;
  }

  lemma AttrsStart(attrs: seq<Attr>, tail: Text)
    requires tail != []
    ensures attrs == [] ==> AttrsText(attrs) + tail == tail
    ensures attrs != [] ==> (AttrsText(attrs) + tail)[0] == SPACE
  {
    hide EscapedValue;
    assert [] + tail == tail;
  }

  lemma ReadBadEmpty(name: Text, attrs: seq<Attr>, rest: Text)
    requires TagShape(name) && !X.IsName(name)
    ensures X.Read([LT] + name + AttrsText(attrs) + [SLASH, GT] + rest).None?
  {
    hide X.Read, X.ReadEnd, X.ReadAttrs, X.ReadName, X.IsName, X.NameRun, X.NameByte, EscapedValue;
    var more := AttrsText(attrs) + ([SLASH, GT] + rest);
    var t := [LT] + name + AttrsText(attrs) + [SLASH, GT] + rest;
    BadName(name, more);
    var k := X.NameRun(name);
    var u := name[k..] + more;
    assert t[1..] == name + more && t[1] == name[0] != SLASH;
    X.ReadUnfold(t);
    AttrsStart(attrs, [SLASH, GT] + rest);
    assert u[1] == if k + 1 < |name| then name[k + 1] else more[0];
  }

  lemma ReadBadClose(name: Text, rest: Text)
    requires TagShape(name) && !X.IsName(name)
    ensures X.Read([LT, SLASH] + name + [GT] + rest).None?
  {
    hide X.Read, X.ReadStart, X.ReadAttrs, X.ReadName, X.IsName, X.NameRun, X.NameByte;
    var t := [LT, SLASH] + name + [GT] + rest;
    BadName(name, [GT] + rest);
    assert t[2..] == name + ([GT] + rest);
    X.ReadUnfold(t);
  }

  // ------------------------------------------------------------ events

  /** What the scanner guarantees of a tag. */
  ghost predicate Shaped(e: Event) {
    match e
    case Chars(_) => true
    case Open(name, attrs) => TagShape(name) && AllValid(attrs)
    case Empty(name, attrs) => TagShape(name) && AllValid(attrs)
    case Close(name) => TagShape(name)
  }

  /** A tag that XML can say: a name, no attribute twice, and legal characters in the values. */
  ghost predicate GoodTag(name: Text, attrs: seq<Attr>) {
    X.IsName(name) && X.Distinct(attrs) && LegalValues(attrs)
  }

  ghost predicate Good(e: Event, named: Named) {
    match e
    case Chars(text) => GoodText(text, named)
    case Open(name, attrs) => GoodTag(name, attrs)
    case Empty(name, attrs) => GoodTag(name, attrs)
    case Close(name) => X.IsName(name)
  }

  /** What an event says. */
  ghost function ItemsOfOne(e: Event, named: Named): seq<X.Item> {
    match e
    case Chars(text) => X.Chars(Resolved(text, 0, named))
    case Open(name, attrs) => [X.Start(name, attrs)]
    case Empty(name, attrs) => [X.Empty(name, attrs)]
    case Close(name) => [X.End(name)]
  }

  ghost function ItemsOf(es: seq<Event>, named: Named): seq<X.Item> {
    if es == [] then [] else ItemsOfOne(es[0], named) + ItemsOf(es[1..], named)
  }

  lemma ReadChars(text: Text, rest: Text, named: Named)
    requires Sound(named)
    ensures X.Read(HtmlScan.Escaped(text, 0, named) + rest) ==
      if GoodText(text, named) then X.Behind(X.Chars(Resolved(text, 0, named)), X.Read(rest)) else None
  {
    hide HtmlScan.Escaped, X.Read, X.Behind, X.AllLegal, X.IsCharRef, Sound;
    assert text[0..] == text;
    ReadText(text, 0, named, rest);
    SaysExactly(text, 0, named);
  }

  lemma ReadGood(e: Event, rest: Text, named: Named)
    requires Sound(named) && Shaped(e) && Good(e, named)
    ensures X.Read(EventText(e, named) + rest) == X.Behind(ItemsOfOne(e, named), X.Read(rest))
  {
    hide Sound, TagShape, AllValid, X.IsName, X.Distinct, LegalValues, X.Read, GoodText, HtmlScan.Escaped, AttrsText, X.Behind;
    match e
    case Chars(text) => ReadChars(text, rest, named);
    case Open(name, attrs) => ReadGoodOpen(name, attrs, rest);
    case Empty(name, attrs) => ReadGoodEmpty(name, attrs, rest);
    case Close(name) => ReadGoodClose(name, rest);
  }

  /** An opening tag whose name is none: the only event that may be read although it is not good. */
  ghost predicate Misread(e: Event) {
    e.Open? && !X.IsName(e.name)
  }

  lemma ReadBad(e: Event, rest: Text, named: Named)
    requires Sound(named) && Shaped(e) && !Good(e, named) && X.Read(EventText(e, named) + rest).Some?
    ensures Misread(e) && X.Read(rest).Some?
  {
    hide Sound, TagShape, AllValid, X.IsName, X.Distinct, LegalValues, X.Read, GoodText, HtmlScan.Escaped, AttrsText, X.Behind;
    match e
    case Chars(text) => ReadChars(text, rest, named);
    case Open(name, attrs) =>
      if X.IsName(name) { ReadGoodOpen(name, attrs, rest); } else { ReadBadOpen(name, attrs, rest); }
    case Empty(name, attrs) =>
      if X.IsName(name) { ReadGoodEmpty(name, attrs, rest); } else { ReadBadEmpty(name, attrs, rest); }
    case Close(name) => ReadBadClose(name, rest);
  }

  /** Good events read as what they say. */
  lemma {:induction false} ReadsGood(es: seq<Event>, rest: Text, named: Named)
    requires Sound(named) && forall e :: e in es ==> Shaped(e) && Good(e, named)
    ensures X.Read(Written(es, named) + rest) == X.Behind(ItemsOf(es, named), X.Read(rest))
    decreases |es|
  {
    hide Sound, Shaped, Good, X.Read, EventText, ItemsOfOne, X.Behind;
    if es == [] {
      NothingRead(rest);
      assert X.Chars([]) == [];
    } else {
      var more := Written(es[1..], named);
      assert Written(es, named) + rest == EventText(es[0], named) + (more + rest);
      ReadGood(es[0], more + rest, named);
      ReadsGood(es[1..], rest, named);
      X.BehindTwice(ItemsOfOne(es[0], named), ItemsOf(es[1..], named), X.Read(rest));
    }
  }

  /** What can be read is good, but for misread opening tags. */
  lemma {:induction false} ReadIsGood(es: seq<Event>, rest: Text, named: Named)
    requires Sound(named) && forall e :: e in es ==> Shaped(e)
    requires X.Read(Written(es, named) + rest).Some?
    ensures forall e :: e in es ==> Good(e, named) || Misread(e)
    decreases |es|
  {
    hide Sound, Shaped, Good, Misread, X.Read, EventText, ItemsOfOne;
    if es != [] {
      var more := Written(es[1..], named) + rest;
      assert Written(es, named) + rest == EventText(es[0], named) + more;
      if Good(es[0], named) {
        ReadGood(es[0], more, named);
        SomeBehind(ItemsOfOne(es[0], named), X.Read(more));
      } else {
        ReadBad(es[0], more, named);
      }
      ReadIsGood(es[1..], rest, named);
      assert forall e :: e in es ==> e == es[0] || e in es[1..];
    }
  }

  lemma SomeBehind(items: seq<X.Item>, r: Option<seq<X.Item>>)
    ensures X.Behind(items, r).Some? ==> r.Some?
  {
  }

  /** In tags that nest, whatever is opened is closed. */
  lemma {:induction false} OpenedIsClosed(es: seq<Event>, stack: seq<Text>)
    requires After(es, stack) == Some([])
    ensures forall n :: n in stack ==> Close(n) in es
    ensures forall e :: e in es && e.Open? ==> Close(e.name) in es
    decreases |es|
  {
    if es != [] {
      var next := StackAfter(es[0], stack).value;
      OpenedIsClosed(es[1..], next);
      assert es == [es[0]] + es[1..];
      forall n | n in stack ensures Close(n) in es {
        if es[0].Close? && es[0].name == n {
        } else if es[0].Close? {
          assert stack == next + [es[0].name];
          assert n in next;
        } else {
          assert n in next;
        }
      }
    }
  }

  /** So tags that nest are all good, if they can be read. */
  lemma ReadNestedIsGood(es: seq<Event>, rest: Text, named: Named)
    requires Sound(named) && After(es, []) == Some([]) && forall e :: e in es ==> Shaped(e)
    requires X.Read(Written(es, named) + rest).Some?
    ensures forall e :: e in es ==> Good(e, named)
  {
    hide Sound, Shaped, GoodText, GoodTag, X.Read, Written, After, X.IsName;
    ReadIsGood(es, rest, named);
    OpenedIsClosed(es, []);
    forall e | e in es && e.Open? ensures X.IsName(e.name) {
      assert Close(e.name) in es;
    }
  }

  // ------------------------------------------------------------ the element structure

  lemma {:induction false} CharsClose(s: Text, more: seq<X.Item>, stack: seq<Text>)
    requires stack != []
    ensures X.Closes(X.Chars(s) + more, stack) <==> X.Closes(more, stack)
  {
    if s == [] {
      assert X.Chars(s) + more == more;
    } else {
      var items := X.Chars(s) + more;
      assert items[0] == X.Char(s[0]) && items[1..] == X.Chars(s[1..]) + more;
      CharsClose(s[1..], more, stack);
    }
  }

  /** One event, read inside any open element. */
  lemma ItemsCloseOne(e: Event, stack: seq<Text>, root: Text, more: seq<X.Item>, named: Named)
    requires StackAfter(e, stack).Some?
    ensures X.Closes(ItemsOfOne(e, named) + more, [root] + stack) <==> X.Closes(more, [root] + StackAfter(e, stack).value)
  {
    hide Resolved, X.Chars;
    var next := StackAfter(e, stack).value;
    var items := ItemsOfOne(e, named) + more;
    match e
    case Chars(text) => CharsClose(Resolved(text, 0, named), more, [root] + stack);
    case Empty(_, _) => assert items[1..] == more;
    case Open(name, _) => assert items[1..] == more && ([root] + stack) + [name] == [root] + next;
    case Close(name) =>
      assert items[1..] == more && ([root] + stack)[..|stack|] == [root] + next;
      assert ([root] + stack)[|stack|] == stack[|stack| - 1];
  }

  /** Tags that nest still nest when they are read, inside any open element. */
  lemma {:induction false} ItemsClose(es: seq<Event>, stack: seq<Text>, root: Text, more: seq<X.Item>, named: Named)
    requires After(es, stack).Some?
    ensures X.Closes(ItemsOf(es, named) + more, [root] + stack) <==> X.Closes(more, [root] + After(es, stack).value)
    decreases |es|
  {
    hide ItemsOfOne, StackAfter, X.Closes;
    if es == [] {
      assert ItemsOf(es, named) + more == more;
    } else {
      var rest := ItemsOf(es[1..], named) + more;
      ItemsCloseOne(es[0], stack, root, rest, named);
      ItemsClose(es[1..], StackAfter(es[0], stack).value, root, more, named);
      assert ItemsOf(es, named) + more == ItemsOfOne(es[0], named) + rest;
    }
  }

  // ------------------------------------------------------------ from the tokens of the input

  /** What the scanner found, and XML can say; closing tags are checked against what is open anyway. */
  ghost predicate GoodToken(tok: Token, named: Named) {
    match tok
    case Run(text) => GoodText(text, named)
    case Start(name, attrs, _) => GoodTag(name, attrs)
    case End(_) => true
  }

  ghost predicate ShapedToken(tok: Token) {
    tok.Start? ==> TagShape(tok.name) && AllValid(tok.attrs)
  }

  lemma {:induction false} ClosingIs(stack: seq<Text>, n: nat, e: Event)
    ensures e in Closing(stack, n) <==> e.Close? && e.name in stack[if n <= |stack| then n else |stack|..]
    decreases |stack|
  {
    if n < |stack| {
      var init := stack[..|stack| - 1];
      ClosingIs(init, n, e);
      assert stack[n..] == init[n..] + [stack[|stack| - 1]];
    }
  }

  /** All events of one kind for all names still open. */
  lemma ClosingAll(stack: seq<Text>, n: nat, named: Named)
    requires n <= |stack|
    ensures (forall e :: e in Closing(stack, n) ==> Good(e, named)) <==> forall m :: m in stack[n..] ==> X.IsName(m)
    ensures (forall m :: m in stack[n..] ==> TagShape(m)) ==> forall e :: e in Closing(stack, n) ==> Shaped(e)
  {
    hide Closing, X.IsName, TagShape, GoodText, GoodTag;
    forall e ensures e in Closing(stack, n) <==> e.Close? && e.name in stack[n..] { ClosingIs(stack, n, e); }
    if forall e :: e in Closing(stack, n) ==> Good(e, named) {
      forall m | m in stack[n..] ensures X.IsName(m) { assert Close(m) in Closing(stack, n) && Good(Close(m), named); }
    }
  }

  ghost predicate AllGood(es: seq<Event>, named: Named) {
    forall e :: e in es ==> Good(e, named)
  }

  ghost predicate AllShaped(es: seq<Event>) {
    forall e :: e in es ==> Shaped(e)
  }

  ghost predicate AllNames(stack: seq<Text>) {
    forall m :: m in stack ==> X.IsName(m)
  }

  ghost predicate AllTags(stack: seq<Text>) {
    forall m :: m in stack ==> TagShape(m)
  }

  lemma GoodConcat(a: seq<Event>, b: seq<Event>, named: Named)
    ensures AllGood(a + b, named) <==> AllGood(a, named) && AllGood(b, named)
    ensures AllShaped(a + b) <==> AllShaped(a) && AllShaped(b)
  {
    hide Good, Shaped;
    assert forall e :: e in a + b <==> e in a || e in b;
  }

  lemma GoodOne(e: Event, named: Named)
    ensures (AllGood([e], named) <==> Good(e, named)) && (AllShaped([e]) <==> Shaped(e))
  {
    hide Good, Shaped;
    assert e in [e];
  }

  lemma NamesConcat(a: seq<Text>, b: seq<Text>)
    ensures AllNames(a + b) <==> AllNames(a) && AllNames(b)
    ensures AllTags(a + b) <==> AllTags(a) && AllTags(b)
  {
    hide X.IsName, TagShape;
    assert forall m :: m in a + b <==> m in a || m in b;
  }

  lemma NamesOne(m: Text)
    ensures (AllNames([m]) <==> X.IsName(m)) && (AllTags([m]) <==> TagShape(m))
  {
    hide X.IsName, TagShape;
    assert m in [m];
  }

  /** Closing tags and what follows them. */
  lemma ClosingThen(stack: seq<Text>, n: nat, es: seq<Event>, named: Named)
    requires n <= |stack|
    ensures AllGood(Closing(stack, n) + es, named) <==> AllNames(stack[n..]) && AllGood(es, named)
    ensures AllTags(stack[n..]) && AllShaped(es) ==> AllShaped(Closing(stack, n) + es)
    ensures AllNames(stack) <==> AllNames(stack[..n]) && AllNames(stack[n..])
    ensures AllTags(stack) <==> AllTags(stack[..n]) && AllTags(stack[n..])
  {
    hide Closing, Good, Shaped, X.IsName, TagShape;
    ClosingAll(stack, n, named);
    GoodConcat(Closing(stack, n), es, named);
    NamesConcat(stack[..n], stack[n..]);
    assert stack == stack[..n] + stack[n..];
  }

  lemma EventThen(e: Event, es: seq<Event>, named: Named)
    ensures AllGood([e] + es, named) <==> Good(e, named) && AllGood(es, named)
    ensures AllShaped([e] + es) <==> Shaped(e) && AllShaped(es)
  {
    hide Good, Shaped, AllGood, AllShaped;
    GoodConcat([e], es, named);
    GoodOne(e, named);
  }

  ghost predicate AllTokens(ts: seq<Token>, named: Named) {
    ts == [] || (GoodToken(ts[0], named) && AllTokens(ts[1..], named))
  }

  ghost predicate AllShapedTokens(ts: seq<Token>) {
    ts == [] || (ShapedToken(ts[0]) && AllShapedTokens(ts[1..]))
  }

  /** The tags written are good exactly when those found are, and those open before. */
  lemma {:induction false} BuildGood(ts: seq<Token>, stack: seq<Text>, named: Named)
    requires AllShapedTokens(ts) && AllTags(stack)
    ensures AllGood(Build(ts, stack), named) <==> AllTokens(ts, named) && AllNames(stack)
    ensures AllShaped(Build(ts, stack))
    decreases |ts|, 0
  {
    hide AllGood, AllShaped, AllNames, AllTags, GoodText, GoodTag, TagShape, AllValid, X.IsName, IsVoid, ClosesImplicitly, Closing, Below, Surviving;
    if ts == [] {
      ClosingThen(stack, 0, [], named);
      assert Closing(stack, 0) + [] == Closing(stack, 0) && stack[0..] == stack;
      NothingGood(named);
    } else {
      var rest := ts[1..];
      match ts[0]
      case Run(text) =>
        BuildGood(rest, stack, named);
        EventThen(Chars(text), Build(rest, stack), named);
      case End(name) =>
        if IsVoid(name) {
          BuildGood(rest, stack, named);
        } else {
          var n := Below(stack, name);
          ClosingThen(stack, n, Build(rest, stack[..n]), named);
          BuildGood(rest, stack[..n], named);
        }
      case Start(name, attrs, selfClosing) => StartGood(name, attrs, selfClosing || IsVoid(name), rest, stack, named);
    }
  }

  lemma NothingGood(named: Named)
    ensures AllGood([], named) && AllShaped([]) && AllNames([]) && AllTags([])
  {
  }

  /** The case of an opening tag. */
  lemma {:induction false} StartGood(name: Text, attrs: seq<Attr>, empty: bool, rest: seq<Token>, stack: seq<Text>, named: Named)
    requires AllShapedTokens(rest) && AllTags(stack) && TagShape(name) && AllValid(attrs)
    ensures var n := Surviving(stack, name);
      var es := Closing(stack, n) +
        (if empty then [Empty(name, attrs)] + Build(rest, stack[..n]) else [Open(name, attrs)] + Build(rest, stack[..n] + [name]));
      AllShaped(es) && (AllGood(es, named) <==> GoodTag(name, attrs) && AllTokens(rest, named) && AllNames(stack))
    decreases |rest|, 1
  {
    hide AllGood, AllShaped, AllNames, AllTags, GoodText, TagShape, AllValid, X.IsName, X.Distinct, LegalValues, Closing, Surviving, AllTokens, AllShapedTokens, Build;
    var n := Surviving(stack, name);
    var kept := stack[..n];
    NamesConcat(kept, [name]);
    NamesOne(name);
    if empty {
      ClosingThen(stack, n, [Empty(name, attrs)] + Build(rest, kept), named);
      EventThen(Empty(name, attrs), Build(rest, kept), named);
      BuildGood(rest, kept, named);
    } else {
      ClosingThen(stack, n, [Open(name, attrs)] + Build(rest, kept + [name]), named);
      EventThen(Open(name, attrs), Build(rest, kept + [name]), named);
      BuildGood(rest, kept + [name], named);
    }
  }

  // ------------------------------------------------------------ what the scanner guarantees

  lemma {:induction false} SkipIsRun(t: Text, a: nat, kind: byte -> bool)
    requires a <= |t|
    ensures forall k :: a <= k < HtmlScan.Skip(t, a, kind) ==> kind(t[k])
    decreases |t| - a
  {
    if a < |t| && kind(t[a]) { SkipIsRun(t, a + 1, kind); }
  }

  lemma {:induction false} AttrsAreValid(t: Text, from: nat)
    requires from <= |t|
    ensures AllValid(AttrsFrom(t, from))
    decreases |t| - from
  {
    hide HtmlScan.Skip, AttrAt, ValidName;
    var a := HtmlScan.Skip(t, from, Separates);
    if a < |t| { AttrsAreValid(t, AttrAt(t, a).1); }
  }

  lemma LowerKeepsShape(s: Text)
    requires GT !in s && forall i :: 0 <= i < |s| ==> !IsSpaceByte(s[i])
    ensures GT !in Lower(s) && forall i :: 0 <= i < |s| ==> !IsSpaceByte(Lower(s)[i])
  {
  }

  lemma OpeningIsShaped(t: Text, tag: Text, next: nat)
    requires next <= |t| && GT !in tag
    ensures AllShapedTokens(OpeningTag(t, tag, next).tokens)
  {
    hide HtmlScan.Skip, AttrsFrom, FindText, FindByte, IsRawText, M.Ascii, AllValid;
    var selfClosing := tag != [] && tag[|tag| - 1] == SLASH;
    var body := if selfClosing then tag[..|tag| - 1] else tag;
    var p := HtmlScan.Skip(body, 0, InWord);
    SkipIsRun(body, 0, InWord);
    AttrsAreValid(body[p..], 0);
    assert forall k :: 0 <= k < p ==> body[..p][k] == tag[k] && tag[k] in tag;
    LowerKeepsShape(body[..p]);
    OneToken(OpeningTag(t, tag, next).tokens);
  }

  lemma OneToken(ts: seq<Token>)
    ensures |ts| <= 1 ==> (AllShapedTokens(ts) <==> ts == [] || ShapedToken(ts[0]))
  {
    hide ShapedToken;
    if |ts| == 1 { assert ts[1..] == []; }
  }

  lemma FoundIsShaped(t: Text, i: nat)
    requires i < |t|
    ensures AllShapedTokens(FoundAt(t, i).tokens)
  {
    hide FindByte, FindText, StandsAt, OpeningTag, WithoutSpaces, M.Ascii;
    FindByteFirst(t, GT, i);
    var gt := FindByte(t, GT, i);
    if gt < |t| && i < gt {
      var tag := t[i + 1..gt];
      assert forall k :: 0 <= k < |tag| ==> tag[k] == t[i..gt][k + 1];
      OpeningIsShaped(t, tag, gt + 1);
    }
    OneToken(FoundAt(t, i).tokens);
  }

  lemma {:induction false} TokensAreShaped(t: Text, i: nat)
    requires i <= |t|
    ensures AllShapedTokens(Tokens(t, i))
    decreases |t| - i
  {
    hide FoundAt, ShapedToken;
    if i < |t| {
      var f := FoundAt(t, i);
      FoundIsShaped(t, i);
      FoundAtMostOne(t, i);
      var rest := if f.stop then [] else Tokens(t, f.next);
      if !f.stop { TokensAreShaped(t, f.next); }
      assert f.tokens == [] ==> f.tokens + rest == rest;
      assert f.tokens != [] ==> (f.tokens + rest)[1..] == rest;
    }
  }

  // ------------------------------------------------------------ the theorem

  const ROOT := M.Ascii("html")

  /** All that is written. */
  ghost function Output(html: Text, named: Named): Text {
    OPEN_ROOT + Written(Normal(html), named) + CLOSE_ROOT
  }

  /** The input's text runs and opening tags, each for itself, are ones that XML can say. */
  ghost predicate GoodInput(html: Text, named: Named) {
    AllTokens(Tokens(html, 0), named)
  }

  /** The normalised tags inside the root element. */
  ghost function Whole(html: Text): seq<Event> {
    [Open(ROOT, [])] + Normal(html) + [Close(ROOT)]
  }

  lemma OutputIsWritten(html: Text, named: Named)
    ensures Output(html, named) == Written(Whole(html), named)
  {
    hide EventText, Normal;
    var es := Normal(html);
    WrittenConcat([Open(ROOT, [])] + es, [Close(ROOT)], named);
    WrittenConcat([Open(ROOT, [])], es, named);
    WrittenOne(Open(ROOT, []), named);
    WrittenOne(Close(ROOT), named);
    RootTexts(named);
  }

  lemma RootTexts(named: Named)
    ensures EventText(Open(ROOT, []), named) == OPEN_ROOT && EventText(Close(ROOT), named) == CLOSE_ROOT
  {
  }

  lemma RootIsName()
    ensures X.IsName(ROOT) && TagShape(ROOT) && GoodTag(ROOT, [])
  {
  }

  lemma WholeNests(html: Text, named: Named)
    ensures After(Whole(html), []) == Some([]) && AllShaped(Whole(html))
    ensures AllGood(Whole(html), named) <==> GoodInput(html, named)
  {
    hide After, Build, Tokens, AllGood, AllShaped, AllTokens, X.IsName, TagShape, M.Ascii, AllShapedTokens;
    var es, end := Normal(html), [Close(ROOT)];
    RootIsName();
    NormalNests(html);
    TokensAreShaped(html, 0);
    NothingGood(named);
    BuildGood(Tokens(html, 0), [], named);
    NestsInside(es);
    GoodConcat([Open(ROOT, [])] + es, end, named);
    EventThen(Open(ROOT, []), es, named);
    GoodOne(Close(ROOT), named);
  }

  /** Tags that nest inside one more element. */
  lemma NestsInside(es: seq<Event>)
    requires After(es, []) == Some([])
    ensures After([Open(ROOT, [])] + es + [Close(ROOT)], []) == Some([])
  {
    hide M.Ascii;
    NestsOn(es, [], [ROOT]);
    var none: seq<Text> := [];
    assert none + [ROOT] == [ROOT] + none == [ROOT];
    FirstEvent(Open(ROOT, []), es + [Close(ROOT)], []);
    assert [Open(ROOT, [])] + es + [Close(ROOT)] == [Open(ROOT, [])] + (es + [Close(ROOT)]);
    AfterConcat(es, [Close(ROOT)], [ROOT]);
    assert [ROOT][..0] == [] && [Close(ROOT)][1..] == [];
  }

  lemma {:induction false} NestsOn(es: seq<Event>, stack: seq<Text>, below: seq<Text>)
    requires After(es, stack).Some?
    ensures After(es, below + stack) == Some(below + After(es, stack).value)
    decreases |es|
  {
    if es != [] {
      var next := StackAfter(es[0], stack).value;
      NestsOn(es[1..], next, below);
      if es[0].Open? { assert (below + stack) + [es[0].name] == below + next; }
      if es[0].Close? { assert (below + stack)[..|below + stack| - 1] == below + next; }
    }
  }

  /** What is written for good input says the normalised tags inside the root element. */
  lemma ReadsBack(html: Text, named: Named)
    requires Sound(named) && GoodInput(html, named)
    ensures X.Read(Output(html, named)) == Some(ItemsOf(Whole(html), named))
  {
    hide Sound, Whole, Written, After, GoodInput, Shaped, Good, X.ReadOne, ItemsOf;
    var all := Whole(html);
    OutputIsWritten(html, named);
    WholeNests(html, named);
    ReadsGood(all, [], named);
    assert Written(all, named) + [] == Written(all, named);
    assert ItemsOf(all, named) + [] == ItemsOf(all, named);
  }

  /** What is written is well-formed exactly for good input. */
  lemma WellFormedExactly(html: Text, named: Named)
    requires Sound(named)
    ensures X.WellFormed(Output(html, named)) <==> GoodInput(html, named)
  {
    hide Sound, Written, After, GoodInput, Shaped, Good, X.Read, ItemsOf, X.Closes, Output;
    var all := Whole(html);
    OutputIsWritten(html, named);
    WholeNests(html, named);
    assert Written(all, named) + [] == Written(all, named);
    if GoodInput(html, named) {
      ReadsBack(html, named);
      WholeCloses(html, named);
    } else if X.Read(Output(html, named)).Some? {
      ReadNestedIsGood(all, [], named);
    }
  }

  lemma WholeCloses(html: Text, named: Named)
    ensures var items := ItemsOf(Whole(html), named);
      items != [] && items[0] == X.Start(ROOT, []) && X.Closes(items[1..], [ROOT])
  {
    hide Resolved, M.Ascii, After, Normal;
    var es := Normal(html);
    NormalNests(html);
    var whole := Whole(html);
    assert whole[0] == Open(ROOT, []) && whole[1..] == es + [Close(ROOT)];
    ItemsConcat(es, [Close(ROOT)], named);
    ItemsLast(named);
    var items := ItemsOf(whole, named);
    assert items == [X.Start(ROOT, [])] + ItemsOf(whole[1..], named);
    assert items[1..] == ItemsOf(es, named) + [X.End(ROOT)];
    var none: seq<Text> := [];
    assert [ROOT] + none == [ROOT];
    ItemsClose(es, none, ROOT, [X.End(ROOT)], named);
    RootCloses();
  }

  lemma ItemsLast(named: Named)
    ensures ItemsOf([Close(ROOT)], named) == [X.End(ROOT)]
  {
    hide M.Ascii;
    assert [Close(ROOT)][1..] == [] && ItemsOf([], named) == [];
  }

  lemma RootCloses()
    ensures X.Closes([X.End(ROOT)], [ROOT])
  {
    hide M.Ascii;
    assert [X.End(ROOT)][1..] == [] && [ROOT][..0] == [];
    assert X.Closes([], []);
  }

  lemma {:induction false} ItemsConcat(a: seq<Event>, b: seq<Event>, named: Named)
    ensures ItemsOf(a + b, named) == ItemsOf(a, named) + ItemsOf(b, named)
  {
    hide ItemsOfOne;
    if a == [] {
      assert a + b == b;
    } else {
      assert (a + b)[1..] == a[1..] + b;
      ItemsConcat(a[1..], b, named);
    }
  }

  // ------------------------------------------------------------ input that comes out broken

  /** `<&#<;`: the reference of a stray tail is copied, and opens a tag. */
  const STRAY: Text := [LT, AMP, HASH, LT, SEMI]

  lemma StrayReference()
    ensures Normal(STRAY) == [Chars(STRAY)]
    ensures HtmlScan.Escaped(STRAY, 0, Entity) == LT_TEXT + [AMP, HASH, LT, SEMI]
    ensures NumericRefs(STRAY, 0, Entity) == [[HASH, LT]]
  {
    hide M.Ascii, Entity;
    var t := STRAY;
    assert FindByte(t, GT, 4) == 5 && FindByte(t, GT, 3) == 5 && FindByte(t, GT, 2) == 5 && FindByte(t, GT, 1) == 5;
    assert !StandsAt(t, COMMENT, 0) by { assert COMMENT == [LT, BANG, 0x2D, 0x2D] by { CommentIs(); } }
    assert t[0..] == t;
    assert FoundAt(t, 0) == Found([Run(t)], 5, true);
    assert Tokens(t, 0) == [Run(t)] + [];
    var ts := [Run(t)];
    assert ts + [] == ts && ts[1..] == [];
    assert Build([], []) == Closing([], 0) == [];
    assert Build(ts, []) == [Chars(t)] + Build(ts[1..], []);
    StrayIsCopied();
  }

  lemma CommentIs()
    ensures COMMENT == [LT, BANG, 0x2D, 0x2D]
  {
  }

  lemma StrayIsCopied()
    ensures HtmlScan.Escaped(STRAY, 0, Entity) == LT_TEXT + [AMP, HASH, LT, SEMI]
    ensures NumericRefs(STRAY, 0, Entity) == [[HASH, LT]]
  {
    hide M.Ascii, Entity;
    var t := STRAY;
    assert FindByte(t, SEMI, 3) == 4 && FindByte(t, SEMI, 2) == 4;
    assert t[2..4] == [HASH, LT] && [AMP] + t[2..4] + [SEMI] == [AMP, HASH, LT, SEMI];
    assert Reference(t, 1, Entity) == Some(([AMP, HASH, LT, SEMI], 4));
    assert HtmlScan.Escaped(t, 5, Entity) == [] && NumericRefs(t, 5, Entity) == [];
    assert [AMP, HASH, LT, SEMI] + [] == [AMP, HASH, LT, SEMI];
    assert HtmlScan.Escaped(t, 1, Entity) == [AMP, HASH, LT, SEMI];
    assert [[HASH, LT]] + [] == [[HASH, LT]];
    assert NumericRefs(t, 1, Entity) == [[HASH, LT]];
  }

  lemma StrayReferenceBreaks()
    ensures !X.WellFormed(Output(STRAY, Entity))
  {
    hide Entity, X.WellFormed, Output, Tokens, HtmlScan.Escaped, NumericRefs;
    StrayReference();
    EntitiesAreSound();
    WellFormedExactly(STRAY, Entity);
    assert [HASH, LT] in NumericRefs(STRAY, 0, Entity) && !X.IsCharRef([HASH, LT]);
    assert !GoodText(STRAY, Entity);
    EventsAreTokens(STRAY, Chars(STRAY));
  }

  /** An event that is not good comes from input that is not. */
  lemma EventsAreTokens(html: Text, e: Event)
    requires e in Normal(html) && !Good(e, Entity)
    ensures !GoodInput(html, Entity)
  {
    hide Good, Entity, Tokens, Build, AllTokens, AllShapedTokens;
    TokensAreShaped(html, 0);
    NothingGood(Entity);
    BuildGood(Tokens(html, 0), [], Entity);
  }

  /** `<a<b>`: what stands before the first space is the name, markup included. */
  lemma OddNameBreaks()
    ensures !X.WellFormed(Output([LT, 0x61, LT, 0x62, GT], Entity))
  {
    hide Entity, X.WellFormed, Output, Normal;
    var html: Text, name: Text := [LT, 0x61, LT, 0x62, GT], [0x61, LT, 0x62];
    NamesAreNotChecked();
    EntitiesAreSound();
    WellFormedExactly(html, Entity);
    assert !X.NameByte(name[1]);
    EventsAreTokens(html, Open(name, []));
  }

  /** `<a x x>`: attribute names are never compared. */
  const TWICE: Text := [LT, 0x61, SPACE, 0x78, SPACE, 0x78, GT]
  const BOTH: seq<Attr> := [Attr([0x78], []), Attr([0x78], [])]

  lemma RepeatedAttribute()
    ensures Tokens(TWICE, 0) == [Start([0x61], BOTH, false)]
  {
    hide M.Ascii, AttrsFrom;
    var t, tag: Text := TWICE, [0x61, SPACE, 0x78, SPACE, 0x78];
    assert FindByte(t, GT, 6) == 6 && FindByte(t, GT, 5) == 6 && FindByte(t, GT, 4) == 6 && FindByte(t, GT, 3) == 6;
    assert FindByte(t, GT, 2) == 6 && FindByte(t, GT, 1) == 6 && FindByte(t, GT, 0) == 6;
    assert t[1..6] == tag;
    assert COMMENT == [LT, BANG, 0x2D, 0x2D] by { CommentIs(); }
    assert !StandsAt(t, COMMENT, 0);
    assert HtmlScan.Skip(tag, 1, InWord) == 1 && HtmlScan.Skip(tag, 0, InWord) == 1;
    assert tag[..1] == [0x61] == Lower([0x61]) && tag[1..] == [SPACE, 0x78, SPACE, 0x78];
    TwoAttrs();
    assert !IsRawText([0x61]) by { NotRaw(); }
    assert OpeningTag(t, tag, 7) == Found([Start([0x61], BOTH, false)], 7, false);
    hide OpeningTag;
    assert FoundAt(t, 0) == OpeningTag(t, tag, 7);
    assert Tokens(t, 7) == [];
  }

  lemma NotRaw()
    ensures !IsRawText([0x61])
  {
    assert |M.Ascii("script")| == 6 && |M.Ascii("style")| == 5;
  }

  lemma TwoAttrs()
    ensures AttrsFrom([SPACE, 0x78, SPACE, 0x78], 0) == BOTH
  {
    var t: Text, x: Text := [SPACE, 0x78, SPACE, 0x78], [0x78];
    assert HtmlScan.Skip(t, 1, Separates) == 1 && HtmlScan.Skip(t, 0, Separates) == 1;
    assert HtmlScan.Skip(t, 2, InName) == 2 && HtmlScan.Skip(t, 1, InName) == 2;
    assert HtmlScan.Skip(t, 3, IsSpaceByte) == 3 && HtmlScan.Skip(t, 2, IsSpaceByte) == 3;
    assert HtmlScan.Skip(t, 4, InName) == 4 && HtmlScan.Skip(t, 3, InName) == 4 && HtmlScan.Skip(t, 3, Separates) == 3;
    assert HtmlScan.Skip(t, 4, IsSpaceByte) == 4 && HtmlScan.Skip(t, 4, Separates) == 4;
    assert t[1..2] == x == t[3..4] && Lower(x) == x && ValidName(x);
    assert AttrAt(t, 1) == (Attr(x, []), 3) && AttrAt(t, 3) == (Attr(x, []), 4);
    assert AttrsFrom(t, 4) == [];
    assert AttrsFrom(t, 3) == [Attr(x, [])];
  }

  lemma RepeatedAttributeBreaks()
    ensures !X.WellFormed(Output(TWICE, Entity))
  {
    hide Entity, X.WellFormed, Output, Tokens;
    RepeatedAttribute();
    EntitiesAreSound();
    WellFormedExactly(TWICE, Entity);
    assert BOTH[0].name == BOTH[1].name;
    assert !X.Distinct(BOTH);
  }

  /** `normalize_html`, with the entities it knows. */
  method NormalizeHtml(html: Text) returns (out: Text)
    ensures X.WellFormed(out) <==> GoodInput(html, Entity)
    ensures GoodInput(html, Entity) ==> X.Read(out) == Some(ItemsOf(Whole(html), Entity))
  {
    hide X.WellFormed, GoodInput, Entity, Written, Normal, X.Read, ItemsOf, Whole;
    out := Normalize(html, Entity);
    EntitiesAreSound();
    WellFormedExactly(html, Entity);
    if GoodInput(html, Entity) { ReadsBack(html, Entity); }
  }
}
