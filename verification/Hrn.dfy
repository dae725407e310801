/** HERE resource names: printing, and parsing with a one-character tokenizer. */
module Hrn {

  // The tokenizer.

  /** What is left to read: nothing at all, or a possibly empty rest. */
  datatype Cursor = End | Rest(text: string)

  function FirstSeparator(s: string, sep: char): (k: nat)
    ensures k <= |s|
    ensures sep !in s[..k]
    ensures k < |s| ==> s[k] == sep
  {
    if s == [] || s[0] == sep then 0 else
      var k := 1 + FirstSeparator(s[1..], sep);
      assert s[..k] == [s[0]] + s[1..][..k - 1];
      k
  }

  function Token(c: Cursor, sep: char): string {
    match c
    case End => ""
    case Rest(s) => s[..FirstSeparator(s, sep)]
  }

  function After(c: Cursor, sep: char): Cursor {
    match c
    case End => End
    case Rest(s) =>
      var k := FirstSeparator(s, sep);
      if k == |s| then End else Rest(s[k + 1..])
  }

  function Tail(c: Cursor): string {
    match c
    case End => ""
    case Rest(s) => s
  }

  class Tokenizer {
    const str: string
    const sep: char
    var pos: int

    static const NPOS := -1

    ghost predicate Valid()
      reads this
    {
      NPOS <= pos <= |str|
    }

    ghost function View(): Cursor
      requires Valid()
      reads this
    {
      if pos == NPOS then End else Rest(str[pos..])
    }

    constructor (input: string, separator: char)
      ensures Valid() && str == input && sep == separator && View() == Rest(input)
    {
      str, sep, pos := input, separator, 0;
    }

    predicate HasNext()
      reads this
    {
      str != [] && pos != NPOS
    }

    method Next() returns (token: string)
      requires Valid()
      modifies this
      ensures Valid()
      ensures token == old(Token(View(), sep)) && View() == old(After(View(), sep))
    {
      if pos == NPOS {
        return "";
      }
      var begin := pos;
      var k := pos;
      while k < |str| && str[k] != sep
        invariant begin <= k <= |str|
        invariant FirstSeparator(str[begin..], sep) == k - begin + FirstSeparator(str[k..], sep)
      {
        assert str[k..][1..] == str[k + 1..];
        k := k + 1;
      }
      assert FirstSeparator(str[begin..], sep) == k - begin && str[begin..][..k - begin] == str[begin..k];
      if k == |str| {
        pos := NPOS;
        return str[begin..];
      }
      pos := k + 1;
      return str[begin..k];
    }

    method TakeTail() returns (tail: string)
      requires Valid()
      modifies this
      ensures Valid()
      ensures tail == old(Tail(View())) && View() == End
    {
      if pos == NPOS {
        return "";
      }
      tail := str[pos..];
      pos := NPOS;
    }
  }

  // Names.

  datatype ServiceType = Unknown | Data | Schema | Pipeline

  datatype HRN = HRN(
    partition: string, service: ServiceType, region: string, account: string,
    catalogId: string, layerId: string,
    groupId: string, schemaName: string, version: string,
    pipelineId: string)

  const NULL := HRN("", Unknown, "", "", "", "", "", "", "", "")

  function ToString(h: HRN): string {
    var genericPart := ":" + h.region + ":" + h.account + ":";
    "hrn:" + h.partition + ":" +
    match h.service
    case Data => "data" + genericPart + h.catalogId + if h.layerId == "" then "" else ":" + h.layerId
    case Schema => "schema" + genericPart + h.groupId + ":" + h.schemaName + ":" + h.version
    case Pipeline => "pipeline" + genericPart + h.pipelineId
    case Unknown => genericPart
  }

  /** The equality operator: only the fields of the service count. */
  predicate Equal(h: HRN, o: HRN) {
    h.partition == o.partition && h.service == o.service && h.region == o.region && h.account == o.account &&
    match h.service
    case Data => h.catalogId == o.catalogId && h.layerId == o.layerId
    case Schema => h.groupId == o.groupId && h.schemaName == o.schemaName && h.version == o.version
    case Pipeline => h.pipelineId == o.pipelineId
    case Unknown => true
  }

  function ServiceOf(name: string): ServiceType {
    if name == "data" then Data
    else if name == "schema" then Schema
    else if name == "pipeline" then Pipeline
    else Unknown
  }

  function NextToken(c: Cursor): string {
    Token(c, ':')
  }

  function Skip(c: Cursor, n: nat): Cursor
    decreases n
  {
    if n == 0 then c else Skip(After(c, ':'), n - 1)
  }

  /** The name whose text follows the "hrn" token: the cursor stands before the partition. */
  function Fields(c: Cursor): HRN {
    var h := NULL.(partition := NextToken(c), service := ServiceOf(NextToken(Skip(c, 1))),
                   region := NextToken(Skip(c, 2)), account := NextToken(Skip(c, 3)));
    match h.service
    case Data => h.(catalogId := NextToken(Skip(c, 4)), layerId := Tail(Skip(c, 5)))
    case Schema =>
      h.(groupId := NextToken(Skip(c, 4)), schemaName := NextToken(Skip(c, 5)), version := Tail(Skip(c, 6)))
    case Pipeline => h.(pipelineId := Tail(Skip(c, 4)))
    case Unknown => h
  }

  function Parsed(input: string): HRN {
    var protocol := NextToken(Rest(input));
    if protocol == "http" || protocol == "https" then NULL.(catalogId := input, partition := "catalog-url")
    else if protocol == "hrn" then Fields(After(Rest(input), ':'))
    else NULL
  }

  /** The parsing constructor. A field without a token keeps its initial, empty value. */
  method Parse(input: string) returns (h: HRN)
    ensures h == Parsed(input)
  {
    var t := new Tokenizer(input, ':');
    h := NULL;
    if !t.HasNext() {
      return;
    }
    var protocol := t.Next();
    if protocol == "http" || protocol == "https" {
      h := h.(catalogId := input, partition := "catalog-url");
      return;
    }
    if protocol != "hrn" {
      return;
    }
    h := ParseFields(t);
  }

  method NextField(t: Tokenizer) returns (token: string)
    requires t.Valid() && t.str != [] && t.sep == ':'
    modifies t
    ensures t.Valid() && token == old(NextToken(t.View())) && t.View() == old(After(t.View(), ':'))
  {
    token := "";
    if t.HasNext() {
      token := t.Next();
    }
  }

  method TailField(t: Tokenizer) returns (tail: string)
    requires t.Valid() && t.str != []
    modifies t
    ensures t.Valid() && tail == old(Tail(t.View()))
  {
    tail := "";
    if t.HasNext() {
      tail := t.TakeTail();
    }
  }

  method ParseFields(t: Tokenizer) returns (h: HRN)
    requires t.Valid() && t.str != [] && t.sep == ':'
    modifies t
    ensures h == old(Fields(t.View()))
  {
    hide NextToken, After, Tail;
    ghost var c := t.View();
    h := NULL;
    var partition := NextField(t);
    assert t.View() == Skip(c, 1);
    var serviceStr := NextField(t);
    assert t.View() == Skip(After(c, ':'), 1) == Skip(c, 2);
    var region := NextField(t);
    SkipNext(c, 2);
    var account := NextField(t);
    SkipNext(c, 3);
    h := h.(partition := partition, service := ServiceOf(serviceStr), region := region, account := account);
    match h.service
    case Data =>
      var catalogId := NextField(t);
      SkipNext(c, 4);
      var layerId := TailField(t);
      h := h.(catalogId := catalogId, layerId := layerId);
    case Schema =>
      var groupId := NextField(t);
      SkipNext(c, 4);
      var schemaName := NextField(t);
      SkipNext(c, 5);
      var version := TailField(t);
      h := h.(groupId := groupId, schemaName := schemaName, version := version);
    case Pipeline =>
      var pipelineId := TailField(t);
      h := h.(pipelineId := pipelineId);
    case Unknown =>
  }

  lemma {:induction false} SkipNext(c: Cursor, n: nat)
    ensures After(Skip(c, n), ':') == Skip(c, n + 1)
    decreases n
  {
    if n > 0 {
      SkipNext(After(c, ':'), n - 1);
    }
  }

  // Round trips.

  predicate ColonFree(s: string) {
    ':' !in s
  }

  /** The fields that a colon follows in the printed form. */
  predicate FieldsColonFree(h: HRN) {
    ColonFree(h.partition) && ColonFree(h.region) && ColonFree(h.account) &&
    match h.service
    case Data => ColonFree(h.catalogId)
    case Schema => ColonFree(h.groupId) && ColonFree(h.schemaName)
    case Pipeline => true
    case Unknown => true
  }

  lemma {:induction false} SeparatorAfter(a: string, rest: string)
    requires ColonFree(a) && (rest == "" || rest[0] == ':')
    ensures FirstSeparator(a + rest, ':') == |a|
  {
    if a == "" {
      assert a + rest == rest;
    } else {
      assert (a + rest)[1..] == a[1..] + rest;
      SeparatorAfter(a[1..], rest);
    }
  }

  /** A token before a colon is read back, and the rest is left. */
  lemma ReadToken(a: string, rest: string)
    requires ColonFree(a)
    ensures NextToken(Rest(a + ":" + rest)) == a && After(Rest(a + ":" + rest), ':') == Rest(rest)
  {
    var s := a + ":" + rest;
    assert s == a + (":" + rest);
    SeparatorAfter(a, ":" + rest);
    assert s[..|a|] == a && s[|a| + 1..] == rest;
  }

  lemma ReadLast(a: string)
    requires ColonFree(a)
    ensures NextToken(Rest(a)) == a && After(Rest(a), ':') == End
  {
    assert a + "" == a;
    SeparatorAfter(a, "");
  }

  lemma TokenColonFree(c: Cursor)
    ensures ColonFree(NextToken(c))
  {
  }

  function ServiceName(s: ServiceType): string {
    match s
    case Data => "data"
    case Schema => "schema"
    case Pipeline => "pipeline"
    case Unknown => ""
  }

  /** What is printed after the fields that all services share. */
  function OwnPart(h: HRN): string {
    match h.service
    case Data => h.catalogId + if h.layerId == "" then "" else ":" + h.layerId
    case Schema => h.groupId + ":" + (h.schemaName + ":" + h.version)
    case Pipeline => h.pipelineId
    case Unknown => ""
  }

  lemma Associate(a: string, b: string, c: string)
    ensures a + (b + c) == (a + b) + c
  {
  }

  lemma GenericPart(region: string, account: string, own: string)
    ensures (":" + region + ":" + account + ":") + own == ":" + (region + ":" + (account + ":" + own))
  {
  }

  lemma WholeName(partition: string, rest: string)
    ensures "hrn:" + partition + ":" + rest == "hrn" + ":" + (partition + ":" + rest)
  {
    assert "hrn:" == "hrn" + ":";
  }

  lemma PrintedShape(h: HRN)
    ensures ToString(h) ==
            "hrn" + ":" + (h.partition + ":" +
            (ServiceName(h.service) + ":" + (h.region + ":" + (h.account + ":" + OwnPart(h)))))
  {
    var name := ServiceName(h.service);
    var g := ":" + h.region + ":" + h.account + ":";
    PrintedParts(h);
    GenericPart(h.region, h.account, OwnPart(h));
    Associate(name, g, OwnPart(h));
    Associate(name, ":", h.region + ":" + (h.account + ":" + OwnPart(h)));
    WholeName(h.partition, name + g + OwnPart(h));
  }

  lemma PrintedParts(h: HRN)
    ensures ToString(h) == "hrn:" + h.partition + ":" +
                           (ServiceName(h.service) + (":" + h.region + ":" + h.account + ":") + OwnPart(h))
  {
    var g := ":" + h.region + ":" + h.account + ":";
    match h.service
    case Data => Associate("data" + g, h.catalogId, if h.layerId == "" then "" else ":" + h.layerId);
    case Schema =>
      var a := "schema" + g;
      Associate(h.groupId, ":", h.schemaName + ":" + h.version);
      assert a + h.groupId + ":" + h.schemaName + ":" + h.version ==
             a + (h.groupId + ":" + (h.schemaName + ":" + h.version));
    case Pipeline =>
    case Unknown =>
      assert "" + g + "" == g;
  }

  /** Parsing a printed name gives an equal name exactly when no colon hides in a field that a colon follows. */
  lemma RoundTrip(h: HRN)
    ensures Equal(Parsed(ToString(h)), h) <==> FieldsColonFree(h)
  {
    if FieldsColonFree(h) {
      ParsePrinted(h);
    }
    ParsedColonFree(ToString(h));
  }

  lemma ParsedColonFree(input: string)
    ensures FieldsColonFree(Parsed(input))
  {
    hide NextToken, Skip, After, Tail;
    var c := After(Rest(input), ':');
    TokenColonFree(c);
    TokenColonFree(Skip(c, 2));
    TokenColonFree(Skip(c, 3));
    TokenColonFree(Skip(c, 4));
    TokenColonFree(Skip(c, 5));
  }

  lemma ParsePrinted(h: HRN)
    requires FieldsColonFree(h)
    ensures Equal(Parsed(ToString(h)), h)
  {
    hide NextToken, After, OwnPart;
    PrintedShape(h);
    var own := OwnPart(h);
    var c4 := h.account + ":" + own;
    var c3 := h.region + ":" + c4;
    var c2 := ServiceName(h.service) + ":" + c3;
    var c1 := h.partition + ":" + c2;
    ReadToken("hrn", c1);
    ReadToken(h.partition, c2);
    ReadToken(ServiceName(h.service), c3);
    ReadToken(h.region, c4);
    ReadToken(h.account, own);
    var c := Rest(c1);
    SkipNext(c, 0);
    SkipNext(c, 1);
    SkipNext(c, 2);
    SkipNext(c, 3);
    SkipNext(c, 4);
    SkipNext(c, 5);
    assert Skip(c, 4) == Rest(own);
    ReadOwnPart(h);
  }

  lemma ReadOwnPart(h: HRN)
    requires FieldsColonFree(h)
    ensures var c := Rest(OwnPart(h));
            match h.service
            case Data => NextToken(c) == h.catalogId && Tail(After(c, ':')) == h.layerId
            case Schema => NextToken(c) == h.groupId && NextToken(After(c, ':')) == h.schemaName &&
                           Tail(After(After(c, ':'), ':')) == h.version
            case Pipeline => Tail(c) == h.pipelineId
            case Unknown => true
  {
    hide NextToken, After;
    match h.service
    case Data =>
      if h.layerId == "" {
        assert OwnPart(h) == h.catalogId;
        ReadLast(h.catalogId);
      } else {
        assert OwnPart(h) == h.catalogId + ":" + h.layerId;
        ReadToken(h.catalogId, h.layerId);
      }
    case Schema =>
      ReadToken(h.groupId, h.schemaName + ":" + h.version);
      ReadToken(h.schemaName, h.version);
    case Pipeline =>
    case Unknown =>
  }

  // Other inputs.

  /** A direct URL becomes the id of a catalogue in the partition "catalog-url". */
  lemma ParseUrl(scheme: string, rest: string)
    requires scheme == "http" || scheme == "https"
    ensures Parsed(scheme + ":" + rest) ==
            HRN("catalog-url", Unknown, "", "", scheme + ":" + rest, "", "", "", "", "")
  {
    assert ColonFree("http") && ColonFree("https");
    ReadToken(scheme, rest);
    hide NextToken, After;
  }

  /** A text that starts with neither "hrn" nor a URL scheme gives the null name. */
  lemma ParseForeign(scheme: string, rest: string)
    requires ColonFree(scheme) && scheme != "hrn" && scheme != "http" && scheme != "https"
    ensures Parsed(scheme + ":" + rest) == NULL && Parsed(scheme) == NULL
  {
    ReadToken(scheme, rest);
    ReadLast(scheme);
    hide NextToken, After;
  }

  // The printed forms.

  lemma DataExample()
    ensures ToString(NULL.(partition := "here", service := Data, catalogId := "c", layerId := "l")) ==
            "hrn:here:data:::c:l"
  {
  }

  lemma SchemaExample()
    ensures ToString(NULL.(partition := "p", service := Schema, region := "r", groupId := "g", schemaName := "s",
                           version := "1")) == "hrn:p:schema:r::g:s:1"
  {
  }

  lemma PipelineExample()
    ensures ToString(NULL.(partition := "p", service := Pipeline, account := "a", pipelineId := "i")) ==
            "hrn:p:pipeline::a:i"
  {
  }
}
