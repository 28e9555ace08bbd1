/** OID and symbol text, and translation between them: trishul_snmp/mib/registry.py and the `symbolic`
    property of trishul_snmp/types.py. */
module Translation {
  import opened Wrappers
  import opened Oids
  import opened Text
  import opened Registry

  type Parsed<+T> = Result<T, MibError>

  // Text operations

  predicate IsSpace(c: char) {
    c == ' ' || '\t' <= c <= '\r' || 0x1C <= c as int <= 0x1F
  }

  function StripLeft(s: string): string {
    if s != [] && IsSpace(s[0]) then StripLeft(s[1..]) else s
  }

  function StripRight(s: string): string {
    if s != [] && IsSpace(s[|s| - 1]) then StripRight(s[..|s| - 1]) else s
  }

  /** `str.strip()` */
  function Strip(s: string): string {
    StripRight(StripLeft(s))
  }

  /** `str.lstrip(".")` */
  function StripDots(s: string): string {
    if s != [] && s[0] == '.' then StripDots(s[1..]) else s
  }

  /** Where `::` first occurs, or the length of the text. */
  function FindColons(s: string): (i: nat)
    ensures i <= |s|
    ensures i < |s| ==> i + 1 < |s| && s[i] == ':' && s[i + 1] == ':'
  {
    if |s| < 2 then |s| else if s[0] == ':' && s[1] == ':' then 0 else 1 + FindColons(s[1..])
  }

  function FindDot(s: string): (i: nat)
    ensures i <= |s|
    ensures i < |s| ==> s[i] == '.'
    ensures '.' !in s[..i]
  {
    if s == [] || s[0] == '.' then 0
    else
      var i := FindDot(s[1..]);
      assert s[..1 + i] == [s[0]] + s[1..][..i];
      1 + i
  }

  // Parsing and printing

  function ParseOidText(text: string): Parsed<Oid> {
    var stripped := Strip(text);
    var bare := StripDots(stripped);
    if stripped == [] || bare == [] then Failure(InvalidOid)
    else
      var parts := Split(bare, '.');
      if AllNumerals(parts) then Success(IntAll(parts)) else Failure(InvalidOid)
  }

  predicate IsNumericOidText(text: string) {
    var bare := StripDots(Strip(text));
    bare != [] && AllNumerals(Split(bare, '.'))
  }

  function ParseSymbolicTarget(target: string): Parsed<(string, string, Oid)> {
    var i := FindColons(target);
    if i == |target| || i == 0 || i + 2 == |target| then Failure(UnknownSymbol)
    else
      var moduleName, remainder := target[..i], target[i + 2..];
      var d := FindDot(remainder);
      if d == |remainder| then Success((moduleName, remainder, []))
      else
        var symbol, suffix := remainder[..d], remainder[d + 1..];
        if symbol == [] || suffix == [] || !IsNumericOidText(suffix) then Failure(UnknownSymbol)
        else
          var oid :- ParseOidText(suffix);
          Success((moduleName, symbol, oid))
  }

  /** Dotted decimal; arcs are not negative here. */
  function OidToString(oid: seq<nat>): string {
    Join(StrAll(oid), '.')
  }

  function Resolve(ix: Indexes, target: string): Parsed<Oid> {
    var (moduleName, symbol, suffix) :- ParseSymbolicTarget(target);
    if (moduleName, symbol) in ix.symbols then Success(ix.symbols[(moduleName, symbol)].oid + suffix)
    else Failure(UnknownSymbol)
  }

  const SCALAR := "scalar"
  const OBJECT_TYPE := "OBJECT-TYPE"
  const OBJECT_IDENTIFIER := "OBJECT IDENTIFIER"

  /** The display policy: a bare OBJECT IDENTIFIER that ends in 0 below a scalar is shown as the
      scalar's instance. */
  function DisplayMatch(ix: Indexes, m: Match): Match {
    if m.suffix != [] || m.objectType != OBJECT_IDENTIFIER || m.oid == [] || m.oid[|m.oid| - 1] != 0 then m
    else
      var parentOid := m.oid[..|m.oid| - 1];
      if parentOid !in ix.exact then m
      else
        var parent := ix.exact[parentOid];
        if parent.objectType != OBJECT_TYPE || parent.nodetype != Some(SCALAR) then m
        else Match(m.oid, parent.moduleName, parent.name, parent.oid, [0], parent.objectType, parent.nodetype)
  }

  predicate Naturals(oid: Oid) {
    forall i :: 0 <= i < |oid| ==> oid[i] >= 0
  }

  function AsNats(oid: Oid): (r: seq<nat>)
    requires Naturals(oid)
    ensures r == oid
  {
    if oid == [] then [] else [oid[0]] + AsNats(oid[1..])
  }

  /** `OidMatch.symbolic`; suffixes come from valid OIDs. */
  function Symbolic(m: Match): string
    requires Naturals(m.suffix)
  {
    var base := m.moduleName + "::" + m.symbol;
    if m.suffix == [] then base else base + "." + OidToString(AsNats(m.suffix))
  }

  lemma SuffixNatural(ix: Indexes, oid: Oid)
    requires Lookup(ix, oid).Success?
    ensures Naturals(DisplayMatch(ix, Lookup(ix, oid).value).suffix)
  {
  }

  function Display(ix: Indexes, oid: Oid): Parsed<string> {
    var m :- Lookup(ix, oid);
    SuffixNatural(ix, oid);
    Success(Symbolic(DisplayMatch(ix, m)))
  }

  /** `oid_to_string`; the OIDs resolved here have no negative arcs, which the loader checks. */
  function PrintResolved(oid: Oid): Parsed<string> {
    if Naturals(oid) then Success(OidToString(AsNats(oid))) else Failure(InvalidOid)
  }

  function Translate(ix: Indexes, target: string): Parsed<string> {
    if Strip(target) == [] then Failure(TranslationError)
    else if !IsNumericOidText(target) && FindColons(target) < |target| then
      var oid :- Resolve(ix, target);
      PrintResolved(oid)
    else
      var oid :- ParseOidText(target);
      Display(ix, oid)
  }

  /** The alias policy applies exactly to a node found itself, of type OBJECT IDENTIFIER, whose OID ends
      in 0 right below a scalar; the name shown is then the scalar's with the suffix 0. */
  lemma AliasExactly(listed: seq<Listed>, sidecar: Sidecar, oid: Oid)
    requires Lookup(Index(listed, sidecar), oid).Success?
    ensures var ix := Index(listed, sidecar);
            var m := Lookup(ix, oid).value;
            var parentOid := oid[..|oid| - 1];
            if m.suffix == [] && m.objectType == "OBJECT IDENTIFIER" && oid[|oid| - 1] == 0 && parentOid in ix.exact
               && ix.exact[parentOid].objectType == "OBJECT-TYPE" && ix.exact[parentOid].nodetype == Some("scalar")
            then Display(ix, oid) == Success(ix.exact[parentOid].moduleName + "::" + ix.exact[parentOid].name + ".0")
            else DisplayMatch(ix, m) == m
  {
    hide Index, Find;
    var ix := Index(listed, sidecar);
    var m := DisplayMatch(ix, Lookup(ix, oid).value);
    if m.suffix == [0] {
      var zero: seq<nat> := [0];
      assert AsNats(m.suffix) == zero;
      assert StrAll(zero) == [Str(0)] + StrAll(zero[1..]) == ["0"];
      assert OidToString(zero) == "0";
      assert m.moduleName + "::" + m.symbol + "." + "0" == m.moduleName + "::" + m.symbol + ".0";
    }
  }

  // Dotted text

  predicate OfDigitsAndDots(s: string) {
    forall i :: 0 <= i < |s| ==> IsDigit(s[i]) || s[i] == '.'
  }

  lemma {:induction false} JoinShape(parts: seq<string>)
    requires parts != [] && AllNumerals(parts)
    ensures OfDigitsAndDots(Join(parts, '.')) && Join(parts, '.') != []
    ensures IsDigit(Join(parts, '.')[0])
  {
    if |parts| > 1 {
      JoinShape(parts[1..]);
    }
  }

  lemma {:induction false} NothingToStrip(s: string)
    requires OfDigitsAndDots(s) && s != [] && IsDigit(s[0])
    ensures Strip(s) == s && StripDots(s) == s
  {
  }

  lemma OidTextRoundTrip(oid: seq<nat>)
    requires oid != []
    ensures IsNumericOidText(OidToString(oid))
    ensures ParseOidText(OidToString(oid)) == Success(oid)
    ensures OfDigitsAndDots(OidToString(oid)) && OidToString(oid) != []
  {
    IntAllOfStrAll(oid);
    var parts := StrAll(oid);
    JoinShape(parts);
    NothingToStrip(OidToString(oid));
    SplitOfJoin(parts, '.');
  }

  // Which texts are OIDs

  /** White space as `str.strip` takes it, by code point. */
  predicate Blank(s: string) {
    forall i :: 0 <= i < |s| ==> s[i] as int in {9, 10, 11, 12, 13, 28, 29, 30, 31, 32}
  }

  predicate Dots(s: string) {
    forall i :: 0 <= i < |s| ==> s[i] == '.'
  }

  /** White space, any number of dots, numerals separated by single dots, and white space. */
  predicate Spells(text: string, lead: string, dots: string, parts: seq<string>, trail: string) {
    && Blank(lead) && Dots(dots) && Blank(trail)
    && parts != [] && AllNumerals(parts)
    && text == lead + (dots + Join(parts, '.')) + trail
  }

  ghost predicate SpellsOid(text: string, oid: Oid) {
    exists lead, dots, parts, trail :: Spells(text, lead, dots, parts, trail) && oid == IntAll(parts)
  }

  lemma {:induction false} StripLeftDecomposes(s: string) returns (lead: string)
    ensures Blank(lead) && s == lead + StripLeft(s)
    ensures StripLeft(s) != [] ==> !IsSpace(StripLeft(s)[0])
  {
    if s != [] && IsSpace(s[0]) {
      lead := StripLeftDecomposes(s[1..]);
      lead := [s[0]] + lead;
    } else {
      lead := [];
    }
  }

  lemma {:induction false} StripRightDecomposes(s: string) returns (trail: string)
    ensures Blank(trail) && s == StripRight(s) + trail
  {
    if s != [] && IsSpace(s[|s| - 1]) {
      trail := StripRightDecomposes(s[..|s| - 1]);
      trail := trail + [s[|s| - 1]];
    } else {
      trail := [];
    }
  }

  lemma {:induction false} StripDotsDecomposes(s: string) returns (dots: string)
    ensures Dots(dots) && s == dots + StripDots(s)
  {
    if s != [] && s[0] == '.' {
      dots := StripDotsDecomposes(s[1..]);
      dots := ['.'] + dots;
    } else {
      dots := [];
    }
  }

  lemma {:induction false} BlanksStripLeft(lead: string, core: string)
    requires Blank(lead) && (core != [] ==> !IsSpace(core[0]))
    ensures StripLeft(lead + core) == core
    decreases |lead|
  {
    if lead != [] {
      BlanksStripLeft(lead[1..], core);
      assert (lead + core)[1..] == lead[1..] + core;
    } else {
      assert lead + core == core;
    }
  }

  lemma {:induction false} BlanksStripRight(core: string, trail: string)
    requires Blank(trail) && (core != [] ==> !IsSpace(core[|core| - 1]))
    ensures StripRight(core + trail) == core
    decreases |trail|
  {
    if trail != [] {
      BlanksStripRight(core, trail[..|trail| - 1]);
      assert (core + trail)[..|core + trail| - 1] == core + trail[..|trail| - 1];
    } else {
      assert core + trail == core;
    }
  }

  lemma {:induction false} DotsStrip(dots: string, core: string)
    requires Dots(dots) && (core != [] ==> core[0] != '.')
    ensures StripDots(dots + core) == core
    decreases |dots|
  {
    if dots != [] {
      DotsStrip(dots[1..], core);
      assert (dots + core)[1..] == dots[1..] + core;
    } else {
      assert dots + core == core;
    }
  }

  /** What is stripped off such a text, and what is left. */
  lemma SpelledIsStripped(text: string, lead: string, dots: string, parts: seq<string>, trail: string)
    requires Spells(text, lead, dots, parts, trail)
    ensures Strip(text) != [] && StripDots(Strip(text)) == Join(parts, '.') != []
    ensures Split(Join(parts, '.'), '.') == parts
  {
    JoinShape(parts);
    var core := dots + Join(parts, '.');
    assert forall i :: 0 <= i < |core| ==> !IsSpace(core[i]);
    assert text == lead + (core + trail);
    BlanksStripLeft(lead, core + trail);
    BlanksStripRight(core, trail);
    DotsStrip(dots, Join(parts, '.'));
    SplitOfJoin(parts, '.');
  }

  /** Exactly the texts that spell an OID, with white space around and dots in front allowed, are numeric and are
      parsed, and they are parsed to the OID they spell; all others are refused with InvalidOid. */
  lemma OidTextExactly(text: string, oid: Oid)
    ensures ParseOidText(text) == Success(oid) <==> SpellsOid(text, oid)
    ensures IsNumericOidText(text) <==> ParseOidText(text).Success?
    ensures ParseOidText(text).Failure? ==> ParseOidText(text) == Failure(InvalidOid)
  {
    hide Strip, StripDots;
    if ParseOidText(text) == Success(oid) {
      var lead, dots, trail := Decomposed(text);
      var parts := Split(StripDots(Strip(text)), '.');
      JoinOfSplit(StripDots(Strip(text)), '.');
      assert Spells(text, lead, dots, parts, trail);
    }
    if SpellsOid(text, oid) {
      var lead, dots, parts, trail :| Spells(text, lead, dots, parts, trail) && oid == IntAll(parts);
      SpelledIsStripped(text, lead, dots, parts, trail);
    }
    if IsNumericOidText(text) {
      assert Strip(text) != [] by { NothingFromNothing(); }
    }
  }

  lemma NothingFromNothing()
    ensures StripDots([]) == []
  {
  }

  lemma Decomposed(text: string) returns (lead: string, dots: string, trail: string)
    ensures Blank(lead) && Dots(dots) && Blank(trail)
    ensures text == lead + (dots + StripDots(Strip(text))) + trail
  {
    lead := StripLeftDecomposes(text);
    trail := StripRightDecomposes(StripLeft(text));
    dots := StripDotsDecomposes(Strip(text));
  }

  /** In particular the text of an OID, however surrounded, is parsed to it. */
  lemma SurroundedTextIsParsed(lead: string, dots: string, oid: seq<nat>, trail: string)
    requires Blank(lead) && Dots(dots) && Blank(trail) && oid != []
    ensures var text := lead + (dots + OidToString(oid)) + trail;
            ParseOidText(text) == Success(oid) && IsNumericOidText(text)
  {
    var text := lead + (dots + OidToString(oid)) + trail;
    IntAllOfStrAll(oid);
    assert Spells(text, lead, dots, StrAll(oid), trail);
    OidTextExactly(text, oid);
  }

  // Symbolic text

  /** Names as the SMI writes them. */
  predicate SmiName(s: string) {
    s != [] && '.' !in s && ':' !in s
  }

  lemma {:induction false} ColonsFound(m: string, rest: string)
    requires ':' !in m && (rest != [] ==> rest[0] != ':')
    ensures FindColons(m + "::" + rest) == |m|
    decreases |m|
  {
    var s := m + "::" + rest;
    if m != [] {
      ColonsFound(m[1..], rest);
      assert s[1..] == m[1..] + "::" + rest;
    }
  }

  lemma {:induction false} DotFound(symbol: string, suffix: string)
    requires '.' !in symbol
    ensures FindDot(symbol + "." + suffix) == |symbol|
    decreases |symbol|
  {
    var s := symbol + "." + suffix;
    if symbol != [] {
      DotFound(symbol[1..], suffix);
      assert s[1..] == symbol[1..] + "." + suffix;
    }
  }

  lemma {:induction false} NoDotFound(symbol: string)
    requires '.' !in symbol
    ensures FindDot(symbol) == |symbol|
    decreases |symbol|
  {
    if symbol != [] {
      NoDotFound(symbol[1..]);
    }
  }

  lemma {:induction false} SplitKeepsColon(s: string)
    requires ':' in s
    ensures exists i :: 0 <= i < |Split(s, '.')| && ':' in Split(s, '.')[i]
    decreases |s|
  {
    var parts := Split(s, '.');
    if s[0] == ':' {
      assert parts[0][0] == ':';
    } else {
      assert s == [s[0]] + s[1..];
      SplitKeepsColon(s[1..]);
      var rest := Split(s[1..], '.');
      var i :| 0 <= i < |rest| && ':' in rest[i];
      if s[0] == '.' {
        assert parts[i + 1] == rest[i];
      } else if i > 0 {
        assert parts[i] == rest[i];
      } else {
        assert parts[0] == [s[0]] + rest[0];
      }
    }
  }

  /** `::` stands at `i`, and nowhere before. */
  predicate FirstColons(s: string, i: nat) {
    && i + 1 < |s| && s[i] == ':' && s[i + 1] == ':'
    && forall j :: 0 <= j < i ==> !(s[j] == ':' && s[j + 1] == ':')
  }

  lemma {:induction false} ColonsExactly(s: string, i: nat)
    ensures FindColons(s) == i < |s| <==> FirstColons(s, i)
    ensures FindColons(s) < |s| <==> exists j :: 0 <= j < |s| - 1 && s[j] == ':' && s[j + 1] == ':'
    decreases |s|
  {
    if |s| >= 2 && !(s[0] == ':' && s[1] == ':') {
      var rest := s[1..];
      ColonsExactly(rest, if i > 0 then i - 1 else 0);
      assert forall j :: 0 <= j < |rest| ==> rest[j] == s[j + 1];
      if FindColons(s) < |s| {
        var k := FindColons(rest);
        assert s[k + 1] == ':' && s[k + 2] == ':';
      }
      if j :| 0 <= j < |s| - 1 && s[j] == ':' && s[j + 1] == ':' {
        assert rest[j - 1] == ':' && rest[j] == ':';
      }
      if i > 0 && FirstColons(s, i) {
        forall j | 0 <= j < i - 1
          ensures !(rest[j] == ':' && rest[j + 1] == ':')
        {
          assert !(s[j + 1] == ':' && s[j + 2] == ':');
        }
      }
      if i > 0 && FirstColons(rest, i - 1) {
        forall j | 0 <= j < i
          ensures !(s[j] == ':' && s[j + 1] == ':')
        {
          if j > 0 {
            assert !(rest[j - 1] == ':' && rest[j] == ':');
          }
        }
      }
    }
  }

  /** A symbol without dots, and, behind a dot, the text of an OID. */
  ghost predicate SpellsRemainder(rest: string, symbol: string, suffix: Oid) {
    && symbol != [] && '.' !in symbol && symbol <= rest
    && (if |rest| == |symbol| then suffix == []
        else rest[|symbol|] == '.' && SpellsOid(rest[|symbol| + 1..], suffix))
  }

  /** A module, `::` where it first occurs, and the rest. */
  ghost predicate SpellsSymbol(target: string, moduleName: string, symbol: string, suffix: Oid) {
    && moduleName != []
    && FirstColons(target, |moduleName|) && target[..|moduleName|] == moduleName
    && SpellsRemainder(target[|moduleName| + 2..], symbol, suffix)
  }

  lemma RemainderExactly(rest: string, symbol: string, suffix: Oid)
    ensures var d := FindDot(rest);
            SpellsRemainder(rest, symbol, suffix)
            <==> if d == |rest| then rest != [] && symbol == rest && suffix == []
                 else d > 0 && symbol == rest[..d] && ParseOidText(rest[d + 1..]) == Success(suffix)
  {
    hide FindDot, ParseOidText, IsNumericOidText, SpellsOid;
    var d := FindDot(rest);
    DotExactly(rest, |symbol|);
    if symbol <= rest {
      assert rest[..|symbol|] == symbol;
    }
    if d < |rest| {
      OidTextExactly(rest[d + 1..], suffix);
    }
  }

  /** Exactly the texts of this form are symbolic targets, and they are split into just these parts; all others
      are refused with UnknownSymbol. */
  lemma SymbolicExactly(target: string, moduleName: string, symbol: string, suffix: Oid)
    ensures ParseSymbolicTarget(target) == Success((moduleName, symbol, suffix))
       <==> SpellsSymbol(target, moduleName, symbol, suffix)
    ensures ParseSymbolicTarget(target).Failure? ==> ParseSymbolicTarget(target) == Failure(UnknownSymbol)
  {
    hide FindColons, FindDot, ParseOidText, IsNumericOidText, SpellsRemainder, FirstColons;
    var i := FindColons(target);
    ColonsExactly(target, |moduleName|);
    if i < |target| {
      ColonsExactly(target, i);
      var rest := target[i + 2..];
      RemainderExactly(rest, symbol, suffix);
      RefusedRemainder(rest, symbol, suffix);
    }
  }

  /** A suffix that is no numeric text, or none at all behind its dot, is no OID. */
  lemma RefusedRemainder(rest: string, symbol: string, suffix: Oid)
    ensures var d := FindDot(rest);
            d < |rest| ==>
              && (IsNumericOidText(rest[d + 1..]) <==> ParseOidText(rest[d + 1..]).Success?)
              && (ParseOidText(rest[d + 1..]) == Success(suffix) ==> rest[d + 1..] != [])
    ensures rest == [] ==> FindDot(rest) == |rest|
  {
    hide ParseOidText, IsNumericOidText, SpellsOid;
    var d := FindDot(rest);
    if d < |rest| {
      OidTextExactly(rest[d + 1..], suffix);
      EmptyIsNoOid(rest[d + 1..], suffix);
    }
  }

  lemma {:induction false} DotExactly(s: string, d: nat)
    ensures FindDot(s) == d <==> d <= |s| && '.' !in s[..d] && (d < |s| ==> s[d] == '.')
  {
    if s != [] && s[0] != '.' && d > 0 {
      DotExactly(s[1..], d - 1);
      if d <= |s| {
        assert s[..d] == [s[0]] + s[1..][..d - 1];
      }
    }
  }

  lemma EmptyIsNoOid(text: string, oid: Oid)
    ensures SpellsOid(text, oid) ==> text != []
  {
    if SpellsOid(text, oid) {
      var lead, dots, parts, trail :| Spells(text, lead, dots, parts, trail) && oid == IntAll(parts);
      JoinShape(parts);
    }
  }

  lemma ColonIsNotNumeric(s: string)
    requires ':' in s
    ensures !IsNumericOidText(s) && Strip(s) != []
  {
    StripKeepsColon(s);
    var bare := StripDots(Strip(s));
    SplitKeepsColon(bare);
    var i :| 0 <= i < |Split(bare, '.')| && ':' in Split(bare, '.')[i];
    assert !IsNumeral(Split(bare, '.')[i]);
  }

  lemma {:induction false} StripKeepsColon(s: string)
    requires ':' in s
    ensures ':' in StripDots(Strip(s))
  {
    StripLeftKeepsColon(s);
    StripRightKeepsColon(StripLeft(s));
    StripDotsKeepsColon(Strip(s));
  }

  lemma {:induction false} StripLeftKeepsColon(s: string)
    requires ':' in s
    ensures ':' in StripLeft(s)
  {
    if IsSpace(s[0]) {
      StripLeftKeepsColon(s[1..]);
    }
  }

  lemma {:induction false} StripRightKeepsColon(s: string)
    requires ':' in s
    ensures ':' in StripRight(s)
  {
    if IsSpace(s[|s| - 1]) {
      StripRightKeepsColon(s[..|s| - 1]);
    }
  }

  lemma {:induction false} StripDotsKeepsColon(s: string)
    requires ':' in s
    ensures ':' in StripDots(s)
  {
    if s[0] == '.' {
      StripDotsKeepsColon(s[1..]);
    }
  }

  /** A symbolic name is split into the parts it was made of. */
  lemma SymbolicParses(m: Match)
    requires SmiName(m.symbol) && m.moduleName != [] && ':' !in m.moduleName && Naturals(m.suffix)
    ensures FindColons(Symbolic(m)) == |m.moduleName| < |Symbolic(m)|
    ensures ':' in Symbolic(m)
    ensures ParseSymbolicTarget(Symbolic(m)) == Success((m.moduleName, m.symbol, m.suffix))
  {
    hide IsNumericOidText, ParseOidText, FindColons, FindDot, OidToString;
    var target := Symbolic(m);
    if m.suffix == [] {
      ColonsFound(m.moduleName, m.symbol);
      NoDotFound(m.symbol);
      assert target[..|m.moduleName|] == m.moduleName && target[|m.moduleName| + 2..] == m.symbol;
    } else {
      var suffix := OidToString(AsNats(m.suffix));
      var remainder := m.symbol + "." + suffix;
      assert target == m.moduleName + "::" + remainder;
      ColonsFound(m.moduleName, remainder);
      DotFound(m.symbol, suffix);
      assert target[..|m.moduleName|] == m.moduleName && target[|m.moduleName| + 2..] == remainder;
      assert remainder[..|m.symbol|] == m.symbol && remainder[|m.symbol| + 1..] == suffix;
      OidTextRoundTrip(AsNats(m.suffix));
    }
    assert target[|m.moduleName|] == ':';
  }

  // What is translated, and what is refused

  lemma BlankExactly(text: string)
    ensures Strip(text) == [] <==> Blank(text)
  {
    if Strip(text) == [] {
      var lead := StripLeftDecomposes(text);
      var trail := StripRightDecomposes(StripLeft(text));
      assert text == lead + trail;
    }
    if Blank(text) {
      BlanksStripLeft(text, []);
      assert text + [] == text;
    }
  }

  /** A text that spells an OID is translated like the OID itself, whatever surrounds it. */
  lemma OidIsTranslated(ix: Indexes, text: string, oid: seq<nat>)
    requires SpellsOid(text, oid)
    ensures oid != []
    ensures Translate(ix, text) == Display(ix, oid) == Translate(ix, OidToString(oid))
  {
    hide Strip, ParseOidText, IsNumericOidText, FindColons, OidToString, Lookup, DisplayMatch;
    OidTextExactly(text, oid);
    SpelledOid(text, oid);
    BlankExactly(text);
    OidTextRoundTrip(oid);
    DigitsRemain(OidToString(oid));
  }

  lemma SpelledOid(text: string, oid: Oid)
    requires SpellsOid(text, oid)
    ensures oid != [] && !Blank(text)
  {
    var lead, dots, parts, trail :| Spells(text, lead, dots, parts, trail) && oid == IntAll(parts);
    SpelledIsStripped(text, lead, dots, parts, trail);
    BlankExactly(text);
  }

  /** A text that spells a symbol is translated to the OID of the node of that name, with the suffix. */
  lemma SymbolIsTranslated(ix: Indexes, text: string, moduleName: string, symbol: string, suffix: Oid)
    requires SpellsSymbol(text, moduleName, symbol, suffix)
    ensures Translate(ix, text)
            == if (moduleName, symbol) in ix.symbols then PrintResolved(ix.symbols[(moduleName, symbol)].oid + suffix)
               else Failure(UnknownSymbol)
  {
    hide Strip, ParseSymbolicTarget, IsNumericOidText, FindColons, SpellsRemainder, PrintResolved;
    SymbolicExactly(text, moduleName, symbol, suffix);
    ColonsExactly(text, |moduleName|);
    assert ':' in text by { assert text[|moduleName|] == ':'; }
    ColonIsNotNumeric(text);
  }

  /** Everything else is refused: blank text as such, text with `::` as an unknown symbol, and other text as an
      invalid OID. */
  lemma OtherTextIsRefused(ix: Indexes, text: string)
    requires forall oid :: !SpellsOid(text, oid)
    requires forall moduleName, symbol, suffix :: !SpellsSymbol(text, moduleName, symbol, suffix)
    ensures Translate(ix, text)
            == Failure(if Blank(text) then TranslationError
                       else if exists j :: 0 <= j < |text| - 1 && text[j] == ':' && text[j + 1] == ':'
                       then UnknownSymbol
                       else InvalidOid)
  {
    hide Strip, ParseSymbolicTarget, IsNumericOidText, ParseOidText, FindColons, SpellsOid, SpellsSymbol, Blank;
    BlankExactly(text);
    ColonsExactly(text, 0);
    OidTextExactly(text, []);
    if ParseOidText(text).Success? {
      OidTextExactly(text, ParseOidText(text).value);
    }
    SymbolicExactly(text, [], [], []);
    if ParseSymbolicTarget(text).Success? {
      var (moduleName, symbol, suffix) := ParseSymbolicTarget(text).value;
      SymbolicExactly(text, moduleName, symbol, suffix);
    }
  }

  // Round trip

  /** Nodes carry the name of the module that lists them, SMI-like names, and OIDs without negative arcs. */
  predicate WellNamed(listed: seq<Listed>) {
    forall l <- listed ::
      && l.node.moduleName == l.moduleName
      && l.moduleName != [] && ':' !in l.moduleName
      && SmiName(l.node.name)
      && Naturals(l.node.oid)
  }

  /** The node's own module and name resolve to its OID. */
  predicate LeadsBack(ix: Indexes, node: Node) {
    (node.moduleName, node.name) in ix.symbols && ix.symbols[(node.moduleName, node.name)].oid == node.oid
  }

  /** Translating the numeric OID to its name, and the name back, gives the same text. */
  predicate RoundTrips(ix: Indexes, oid: seq<nat>) {
    var shown := Translate(ix, OidToString(oid));
    shown.Success? && Translate(ix, shown.value) == Success(OidToString(oid))
  }

  lemma ListedNode(listed: seq<Listed>, sidecar: Sidecar, node: Node)
    requires WellNamed(listed) && HasNode(listed, node)
    ensures var ix := Index(listed, sidecar);
            && (node.moduleName, node.name) in ix.symbols
            && SmiName(node.name) && node.moduleName != [] && ':' !in node.moduleName && Naturals(node.oid)
            && Naturals(ix.symbols[(node.moduleName, node.name)].oid)
  {
    IndexIsFaithful(listed, sidecar);
    hide Index, SmiName, Naturals, Faithful;
    var l :| l in listed && l.node == node;
    NamedIsListed(listed, Index(listed, sidecar), l);
  }

  lemma NamedIsListed(listed: seq<Listed>, ix: Indexes, l: Listed)
    requires Faithful(listed, ix) && l in listed
    ensures var key := (l.moduleName, l.node.name);
            && key in ix.symbols && Listed(l.moduleName, ix.symbols[key]) in listed
            && ix.symbols[key].name == l.node.name
  {
  }

  lemma FoundIsListed(listed: seq<Listed>, sidecar: Sidecar, oid: Oid)
    requires Find(Index(listed, sidecar), oid).Some?
    ensures HasNode(listed, Find(Index(listed, sidecar), oid).value)
  {
    IndexIsFaithful(listed, sidecar);
    hide Index;
    var ix := Index(listed, sidecar);
    if Accelerated(ix, oid).Some? {
      var e := ix.sidecar[oid];
      assert Listed(e.moduleName, Accelerated(ix, oid).value) in listed;
    }
  }

  /** What is displayed for a known OID is the name of a listed node whose own OID, with the suffix shown, is
      the OID: also where the alias policy shows the scalar instead of the node found. */
  lemma DisplayedNodeIsListed(listed: seq<Listed>, sidecar: Sidecar, oid: Oid) returns (node: Node)
    requires WellNamed(listed) && SidecarConsistent(Index(listed, sidecar))
    requires Lookup(Index(listed, sidecar), oid).Success?
    ensures var ix := Index(listed, sidecar);
            var m := DisplayMatch(ix, Lookup(ix, oid).value);
            && HasNode(listed, node)
            && m.moduleName == node.moduleName && m.symbol == node.name && m.matchedOid == node.oid
            && m.matchedOid + m.suffix == oid && Naturals(m.suffix)
            && (Found(ix, oid, node) || AliasParent(ix, node.oid))
            && (!Found(ix, oid, node) ==> node.oid in ix.exact && ix.exact[node.oid] == node)
  {
    hide Index, SmiName, Find, WellNamed, HasNode;
    var ix := Index(listed, sidecar);
    var m := Lookup(ix, oid).value;
    var k := Longest(ix, oid, |oid|);
    PrefixValid(oid, k);
    FoundAtKey(listed, sidecar, oid[..k]);
    FoundIsListed(listed, sidecar, oid[..k]);
    node := Find(ix, oid[..k]).value;
    var parentOid := oid[..|oid| - 1];
    if DisplayMatch(ix, m) != m {
      IndexIsFaithful(listed, sidecar);
      assert oid[..k] == oid && parentOid + [0] == oid;
      node := ix.exact[parentOid];
    }
  }

  /** The lookup finds this node, whatever is then shown. */
  predicate Found(ix: Indexes, oid: Oid, node: Node) {
    exists k :: 0 < k <= |oid| && Find(ix, oid[..k]) == Some(node)
  }

  /** A scalar right below which a bare OBJECT IDENTIFIER ends in 0, so that the alias policy shows it. */
  predicate AliasParent(ix: Indexes, k: Oid) {
    && k in ix.exact && ix.exact[k].objectType == OBJECT_TYPE && ix.exact[k].nodetype == Some(SCALAR)
    && Find(ix, k + [0]).Some? && Find(ix, k + [0]).value.objectType == OBJECT_IDENTIFIER
  }

  lemma ResolvedText(ix: Indexes, m: Match)
    requires SmiName(m.symbol) && m.moduleName != [] && ':' !in m.moduleName && Naturals(m.suffix)
    requires (m.moduleName, m.symbol) in ix.symbols && Naturals(ix.symbols[(m.moduleName, m.symbol)].oid)
    ensures var resolved := ix.symbols[(m.moduleName, m.symbol)].oid + m.suffix;
            Translate(ix, Symbolic(m)) == Success(OidToString(AsNats(resolved)))
  {
    hide SmiName, IsNumericOidText, ParseOidText, OidToString, FindColons, Strip, ParseSymbolicTarget, Symbolic;
    SymbolicParses(m);
    ColonIsNotNumeric(Symbolic(m));
  }

  lemma SameText(a: seq<nat>, b: seq<nat>)
    requires b != []
    ensures OidToString(a) == OidToString(b) <==> a == b
  {
    hide IsNumericOidText, ParseOidText, OidToString;
    OidTextRoundTrip(b);
    if a != [] {
      OidTextRoundTrip(a);
    } else {
      assert OidToString([]) == [] by { EmptyText(); }
    }
  }

  lemma EmptyText()
    ensures OidToString([]) == []
  {
  }

  /** A known OID makes the round trip exactly when the name shown for it resolves to the OID matched. */
  lemma RoundTripsExactly(listed: seq<Listed>, sidecar: Sidecar, oid: seq<nat>)
    requires WellNamed(listed) && SidecarConsistent(Index(listed, sidecar))
    requires oid != []
    requires Lookup(Index(listed, sidecar), oid).Success?
    ensures var ix := Index(listed, sidecar);
            var m := DisplayMatch(ix, Lookup(ix, oid).value);
            && (m.moduleName, m.symbol) in ix.symbols
            && (RoundTrips(ix, oid) <==> ix.symbols[(m.moduleName, m.symbol)].oid == m.matchedOid)
  {
    hide Index, SmiName, WellNamed, IsNumericOidText, ParseOidText, OidToString, Lookup, DisplayMatch, Find, HasNode,
      FindColons, Strip, ParseSymbolicTarget, SidecarConsistent, Found, AliasParent, Resolve, Naturals;
    var ix := Index(listed, sidecar);
    OidTextRoundTrip(oid);
    DigitsRemain(OidToString(oid));
    var node := DisplayedNodeIsListed(listed, sidecar, oid);
    ListedNode(listed, sidecar, node);
    var m := DisplayMatch(ix, Lookup(ix, oid).value);
    assert Translate(ix, OidToString(oid)) == Success(Symbolic(m));
    ResolvedText(ix, m);
    var resolved := ix.symbols[(m.moduleName, m.symbol)].oid + m.suffix;
    assert Naturals(resolved) by { NaturalSum(ix.symbols[(m.moduleName, m.symbol)].oid, m.suffix); }
    SameText(AsNats(resolved), oid);
    SameFront(ix.symbols[(m.moduleName, m.symbol)].oid, m.matchedOid, m.suffix);
  }

  lemma NaturalSum(a: Oid, b: Oid)
    requires Naturals(a) && Naturals(b)
    ensures Naturals(a + b)
  {
  }

  lemma SameFront(a: Oid, b: Oid, tail: Oid)
    ensures a + tail == b + tail <==> a == b
  {
    if a + tail == b + tail {
      assert (a + tail)[..|a|] == a && (b + tail)[..|b|] == b;
    }
  }

  // The round trip of every known OID

  /** The nodes at `k` that are shown for some OID: those the sidecar does not hide, and the scalars that the
      alias policy puts in the place of others. */
  predicate Showable(ix: Indexes, k: Oid) {
    k in ix.exact && ((k != [] && Accelerated(ix, k).None?) || AliasParent(ix, k))
  }

  lemma AcceleratedLeadsBack(listed: seq<Listed>, sidecar: Sidecar, oid: Oid)
    requires WellNamed(listed) && Accelerated(Index(listed, sidecar), oid).Some?
    ensures LeadsBack(Index(listed, sidecar), Accelerated(Index(listed, sidecar), oid).value)
  {
    IndexIsFaithful(listed, sidecar);
    hide Index;
    var ix := Index(listed, sidecar);
    var e := ix.sidecar[oid];
    assert Listed(e.moduleName, ix.symbols[(e.moduleName, e.symbol)]) in listed;
  }

  /** An arc that leads from `k` to none of finitely many OIDs. */
  lemma {:induction false} FreshArc(known: set<Oid>, k: Oid, start: nat) returns (x: nat)
    ensures x >= start && k + [x] !in known
    decreases |known|
  {
    if k + [start] !in known {
      x := start;
    } else {
      x := FreshArc(known - {k + [start]}, k, start + 1);
      assert (k + [x])[|k|] == x;
    }
  }

  lemma FreshLookup(ix: Indexes, k: Oid, x: nat)
    requires ValidOid(k) && Find(ix, k).Some?
    requires k + [x] !in ix.exact && k + [x] !in ix.sidecar
    ensures Lookup(ix, k + [x]) == Success(MatchOf(k + [x], Find(ix, k).value, |k|))
    ensures (k + [x])[|k|..] == [x]
  {
    var oid := k + [x];
    assert oid[..|oid|] == oid && oid[..|k|] == k;
    assert Find(ix, oid).None?;
    hide Find;
    assert Longest(ix, oid, |oid|) == Longest(ix, oid, |k|) == |k|;
  }

  lemma AliasLookup(ix: Indexes, k: Oid)
    requires AliasParent(ix, k) && ValidOid(k + [0])
    requires Find(ix, k + [0]).value.oid == k + [0]
    ensures Lookup(ix, k + [0]).Success?
    ensures var m, parent := Lookup(ix, k + [0]).value, ix.exact[k];
            DisplayMatch(ix, m)
            == Match(k + [0], parent.moduleName, parent.name, parent.oid, [0], parent.objectType, parent.nodetype)
  {
    hide Find;
    var oid := k + [0];
    assert oid[..|oid|] == oid && oid[..|oid| - 1] == k;
    assert Longest(ix, oid, |oid|) == |oid|;
  }

  /** A showable node is indeed shown for some OID. */
  lemma ShownBelow(listed: seq<Listed>, sidecar: Sidecar, k: Oid) returns (oid: Oid)
    requires WellNamed(listed) && SidecarConsistent(Index(listed, sidecar))
    requires Showable(Index(listed, sidecar), k)
    ensures ValidOid(oid)
    ensures var ix := Index(listed, sidecar);
            var node := ix.exact[k];
            && Lookup(ix, oid).Success?
            && var m := DisplayMatch(ix, Lookup(ix, oid).value);
            && m.moduleName == node.moduleName && m.symbol == node.name && m.matchedOid == node.oid == k
  {
    var ix := Index(listed, sidecar);
    ExactNode(listed, sidecar, k);
    hide Index, WellNamed, SidecarConsistent, Lookup, Longest, Accelerated;
    if AliasParent(ix, k) {
      oid := k + [0];
      FoundAtKey(listed, sidecar, oid);
      AliasLookup(ix, k);
    } else {
      var x := FreshArc(ix.exact.Keys + ix.sidecar.Keys, k, 0);
      oid := k + [x];
      FreshLookup(ix, k, x);
    }
  }

  lemma ExactNode(listed: seq<Listed>, sidecar: Sidecar, k: Oid)
    requires WellNamed(listed) && k in Index(listed, sidecar).exact
    ensures Index(listed, sidecar).exact[k].oid == k && Naturals(k)
  {
    IndexIsFaithful(listed, sidecar);
    hide Index;
  }

  /** Every known OID makes the round trip exactly when every showable node is, up to its OID, the one that
      its own module and name resolve to. */
  lemma AllRoundTripExactly(listed: seq<Listed>, sidecar: Sidecar)
    requires WellNamed(listed) && SidecarConsistent(Index(listed, sidecar))
    ensures var ix := Index(listed, sidecar);
            AllRoundTrip(ix) <==> forall k <- ix.exact :: Showable(ix, k) ==> LeadsBack(ix, ix.exact[k])
  {
    hide Index, WellNamed, Lookup, DisplayMatch, Find, RoundTrips, SidecarConsistent, HasNode;
    var ix := Index(listed, sidecar);
    if forall k <- ix.exact :: Showable(ix, k) ==> LeadsBack(ix, ix.exact[k]) {
      forall oid: seq<nat> | oid != [] && Lookup(ix, oid).Success?
        ensures RoundTrips(ix, oid)
      {
        RoundTripsExactly(listed, sidecar, oid);
        var node := DisplayedNodeIsListed(listed, sidecar, oid);
        ShownLeadsBack(listed, sidecar, oid, node);
      }
    }
    if AllRoundTrip(ix) {
      forall k <- ix.exact | Showable(ix, k)
        ensures LeadsBack(ix, ix.exact[k])
      {
        var oid := ShownBelow(listed, sidecar, k);
        NatOid(ix, oid);
        RoundTripsExactly(listed, sidecar, AsNats(oid));
      }
    }
  }

  ghost predicate AllRoundTrip(ix: Indexes) {
    forall oid: seq<nat> :: oid != [] && Lookup(ix, oid).Success? ==> RoundTrips(ix, oid)
  }

  lemma NatOid(ix: Indexes, oid: Oid)
    requires ValidOid(oid)
    ensures Naturals(oid) && AsNats(oid) == oid
  {
  }

  lemma ShownLeadsBack(listed: seq<Listed>, sidecar: Sidecar, oid: Oid, node: Node)
    requires WellNamed(listed) && SidecarConsistent(Index(listed, sidecar))
    requires var ix := Index(listed, sidecar);
             && (forall k <- ix.exact :: Showable(ix, k) ==> LeadsBack(ix, ix.exact[k]))
             && (Found(ix, oid, node) || AliasParent(ix, node.oid))
             && (!Found(ix, oid, node) ==> node.oid in ix.exact && ix.exact[node.oid] == node)
    ensures LeadsBack(Index(listed, sidecar), node)
  {
    hide Index, WellNamed, LeadsBack, Accelerated, AliasParent;
    var ix := Index(listed, sidecar);
    if Found(ix, oid, node) {
      var k :| 0 < k <= |oid| && Find(ix, oid[..k]) == Some(node);
      if Accelerated(ix, oid[..k]).Some? {
        AcceleratedLeadsBack(listed, sidecar, oid[..k]);
      } else {
        assert Showable(ix, oid[..k]);
      }
    } else {
      assert Showable(ix, node.oid);
    }
  }

  // In terms of the listing

  /** No later entry has the same OID, so that this one is in the exact index. */
  predicate LastOfOid(listed: seq<Listed>, i: nat)
    requires i < |listed|
  {
    forall j :: i < j < |listed| ==> listed[j].node.oid != listed[i].node.oid
  }

  predicate SameName(a: Listed, b: Listed) {
    a.moduleName == b.moduleName && a.node.name == b.node.name
  }

  /** No later entry of the same module and name has another OID. */
  predicate NotShadowed(listed: seq<Listed>, i: nat)
    requires i < |listed|
  {
    forall j :: i < j < |listed| && SameName(listed[i], listed[j]) ==> listed[j].node.oid == listed[i].node.oid
  }

  lemma {:induction false} LastIndexed(listed: seq<Listed>, sidecar: Sidecar, i: nat)
    requires i < |listed|
    ensures var ix := Index(listed, sidecar);
            && (LastOfOid(listed, i) ==>
                  listed[i].node.oid in ix.exact && ix.exact[listed[i].node.oid] == listed[i].node)
            && ((forall j :: i < j < |listed| ==> !SameName(listed[i], listed[j])) ==>
                  var key := (listed[i].moduleName, listed[i].node.name);
                  key in ix.symbols && ix.symbols[key] == listed[i].node)
  {
    var n := |listed| - 1;
    if i < n {
      var front := listed[..n];
      LastIndexed(front, sidecar, i);
      assert forall j :: i < j < n ==> front[j] == listed[j];
    }
  }

  lemma {:induction false} LastEntry(listed: seq<Listed>, i: nat) returns (j: nat)
    requires i < |listed|
    ensures i <= j < |listed| && SameName(listed[i], listed[j])
    ensures forall k :: j < k < |listed| ==> !SameName(listed[j], listed[k])
    decreases |listed| - i
  {
    if k: nat :| i < k < |listed| && SameName(listed[i], listed[k]) {
      j := LastEntry(listed, k);
    } else {
      j := i;
    }
  }

  lemma {:induction false} LastOidEntry(listed: seq<Listed>, sidecar: Sidecar, k: Oid) returns (i: nat)
    requires k in Index(listed, sidecar).exact
    ensures i < |listed| && listed[i].node.oid == k && LastOfOid(listed, i)
  {
    var n := |listed| - 1;
    if listed[n].node.oid == k {
      i := n;
    } else {
      var front := listed[..n];
      i := LastOidEntry(front, sidecar, k);
      assert forall j :: i < j < n ==> front[j] == listed[j];
    }
  }

  lemma LeadsBackListed(listed: seq<Listed>, sidecar: Sidecar, i: nat)
    requires WellNamed(listed) && i < |listed| && LastOfOid(listed, i)
    ensures LeadsBack(Index(listed, sidecar), listed[i].node) <==> NotShadowed(listed, i)
  {
    hide Index, SmiName, Naturals;
    var j := LastEntry(listed, i);
    LastIndexed(listed, sidecar, j);
    assert listed[i] in listed;
  }

  /** The registry's condition, entry by entry: every known OID makes the round trip exactly when no entry
      that is the last of its OID, and is shown, is followed by an entry of its module and name with
      another OID. */
  lemma RoundTripsUnlessShadowed(listed: seq<Listed>, sidecar: Sidecar)
    requires WellNamed(listed) && SidecarConsistent(Index(listed, sidecar))
    ensures var ix := Index(listed, sidecar);
            AllRoundTrip(ix) <==>
            forall i :: 0 <= i < |listed| && LastOfOid(listed, i) && Showable(ix, listed[i].node.oid) ==>
              NotShadowed(listed, i)
  {
    hide Index, WellNamed, SidecarConsistent, AllRoundTrip, LeadsBack, LastOfOid, NotShadowed, Showable;
    var ix := Index(listed, sidecar);
    AllRoundTripExactly(listed, sidecar);
    if AllRoundTrip(ix) {
      forall i | 0 <= i < |listed| && LastOfOid(listed, i) && Showable(ix, listed[i].node.oid)
        ensures NotShadowed(listed, i)
      {
        LastIndexed(listed, sidecar, i);
        LeadsBackListed(listed, sidecar, i);
      }
    } else {
      var k :| k in ix.exact && Showable(ix, k) && !LeadsBack(ix, ix.exact[k]);
      var i := LastOidEntry(listed, sidecar, k);
      LastIndexed(listed, sidecar, i);
      LeadsBackListed(listed, sidecar, i);
    }
  }

  /** A module lists no name under two OIDs, objects and notifications taken together. */
  predicate UniqueNames(listed: seq<Listed>) {
    forall a <- listed, b <- listed :: SameName(a, b) ==> a.node.oid == b.node.oid
  }

  /** With unique names every known OID makes the round trip. */
  lemma TranslationRoundTrip(listed: seq<Listed>, sidecar: Sidecar)
    requires WellNamed(listed) && UniqueNames(listed) && SidecarConsistent(Index(listed, sidecar))
    ensures AllRoundTrip(Index(listed, sidecar))
  {
    hide Index, WellNamed, SidecarConsistent, AllRoundTrip, Showable;
    RoundTripsUnlessShadowed(listed, sidecar);
  }

  lemma DigitsRemain(s: string)
    requires IsNumericOidText(s)
    ensures Strip(s) != []
  {
  }

  /** Without unique names the round trip can lead elsewhere: an object and a notification of one
      name, of which only the later is found by that name. */
  lemma DuplicateNameMisleads()
    ensures var plain := Node("M", "x", [1, 2], OBJECT_TYPE, None);
            var notification := Node("M", "x", [1, 3], "NOTIFICATION-TYPE", None);
            var ix := Index([Listed("M", plain), Listed("M", notification)], map[]);
            Display(ix, [1, 2]) == Success("M::x") && Resolve(ix, "M::x") == Success([1, 3])
  {
    var plain := Node("M", "x", [1, 2], OBJECT_TYPE, None);
    var notification := Node("M", "x", [1, 3], "NOTIFICATION-TYPE", None);
    var listed := [Listed("M", plain), Listed("M", notification)];
    assert listed[..1] == [Listed("M", plain)];
    assert listed[..1][..0] == [];
    var ix := Index(listed, map[]);
    var one: seq<Listed> := [listed[0]];
    assert one[..0] == [] && listed[..1] == one;
    assert Index(one, map[]) == WithNode(Index(one[..0], map[]), one[0]);
    assert ix == WithNode(Index(listed[..1], map[]), listed[1]);
    var oid: Oid := [1, 2];
    assert oid[1] != notification.oid[1];
    assert oid in ix.exact && ix.exact[oid] == plain;
    assert ix.symbols[("M", "x")] == notification;
    assert oid[..2] == oid && oid[2..] == [];
    var m := Lookup(ix, oid).value;
    assert m == MatchOf(oid, plain, 2);
    assert Symbolic(m) == "M::x";
    SymbolicParses(m);
    assert notification.oid + [] == [1, 3];
  }
}
