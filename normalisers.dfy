/** The four passes that turn one `territory` element into the fields of its
    country record: base attributes, references, validations and formats.
    Each pass that fills a hash key by key is a method with a loop, proved
    equal to a function over the list of writes it performs; the lemmas
    below say what those writes leave behind. */
module Normalisers {
  import opened Canonical
  import opened Markup
  import opened Hashes

  /** The values a country record holds. */
  datatype Value =
    | Text(text: string)                               // a territory attribute
    | Texts(items: seq<string>)                        // the references
    | Table(groups: map<string, map<string, string>>)  // the validations
    | Records(hashes: seq<map<string, string>>)        // the formats

  type Record = map<string, Value>

  // The record keys and field names the passes single out.
  const Formats := "formats"
  const Validations := "validations"
  const References := "references"
  const NationalPrefixFormattingRule := "national_prefix_formatting_rule"
  const NationalPrefixForParsing := "national_prefix_for_parsing"
  const Format := "format"

  // The element names the passes single out.
  const ReferencesTag := "references"
  const AvailableFormatsTag := "availableFormats"

  // ---------------------------------------------------------------------------
  // Whitespace stripping

  predicate IsStripped(s: string) {
    forall i :: 0 <= i < |s| ==> s[i] != '\n' && s[i] != ' '
  }

  /** `delete("\n ")`: every newline and every space removed. */
  function Strip(s: string): string {
    if s == [] then []
    else (if s[0] == '\n' || s[0] == ' ' then [] else [s[0]]) + Strip(s[1..])
  }

  /** Stripping leaves no newline or space. */
  lemma {:induction false} StripIsStripped(s: string)
    ensures IsStripped(Strip(s))
  {
    if s != [] {
      StripIsStripped(s[1..]);
      var head := if s[0] == '\n' || s[0] == ' ' then [] else [s[0]];
      var r := Strip(s);
      assert r == head + Strip(s[1..]);
      forall i | 0 <= i < |r| ensures r[i] != '\n' && r[i] != ' ' {
        if i >= |head| { assert r[i] == Strip(s[1..])[i - |head|]; }
      }
    }
  }

  /** Stripping keeps every other character as often as it occurred. */
  lemma {:induction false} StripCounts(s: string)
    ensures forall c :: c != '\n' && c != ' ' ==> multiset(Strip(s))[c] == multiset(s)[c]
    ensures multiset(Strip(s))['\n'] == 0 && multiset(Strip(s))[' '] == 0
  {
    if s != [] {
      StripCounts(s[1..]);
      var head := if s[0] == '\n' || s[0] == ' ' then [] else [s[0]];
      assert Strip(s) == head + Strip(s[1..]);
      assert s == [s[0]] + s[1..];
      assert multiset(s) == multiset([s[0]]) + multiset(s[1..]);
      assert multiset(Strip(s)) == multiset(head) + multiset(Strip(s[1..]));
    }
  }

  /** A string without newlines or spaces is left as it is. */
  lemma {:induction false} StripKeepsStripped(s: string)
    requires IsStripped(s)
    ensures Strip(s) == s
  {
    if s != [] {
      assert IsStripped(s[1..]) by {
        forall i | 0 <= i < |s[1..]| ensures s[1..][i] != '\n' && s[1..][i] != ' ' {
          assert s[1..][i] == s[i + 1];
        }
      }
      StripKeepsStripped(s[1..]);
    }
  }

  /** Stripping works character by character: the kept characters stay in
      their order. */
  lemma {:induction false} StripAppend(a: string, b: string)
    ensures Strip(a + b) == Strip(a) + Strip(b)
  {
    if a == [] {
      assert a + b == b;
    } else {
      var ab := a + b;
      var head := if a[0] == '\n' || a[0] == ' ' then [] else [a[0]];
      assert ab[0] == a[0] && ab[1..] == a[1..] + b;
      StripAppend(a[1..], b);
      calc {
        Strip(ab);
        head + Strip(a[1..] + b);
        head + (Strip(a[1..]) + Strip(b));
        (head + Strip(a[1..])) + Strip(b);
        Strip(a) + Strip(b);
      }
    }
  }

  lemma StripExamples()
    ensures Strip("1\n2 3") == "123"
    ensures Strip("") == ""
  {
  }

  // ---------------------------------------------------------------------------
  // load_base_attributes

  /** One attribute of the territory, written under its canonical name; only
      `national_prefix_for_parsing` is stripped. */
  function BaseWrite(a: Attr): (string, Value) {
    var key := Underscore(a.name);
    (key, Text(if key == NationalPrefixForParsing then Strip(a.value) else a.value))
  }

  /** The writes of `load_base_attributes`, one per entry of the attribute table. */
  function BaseWrites(territory: Node): seq<(string, Value)> {
    var table := AttributeTable(territory.attrs);
    seq(|table|, i requires 0 <= i < |table| => BaseWrite(table[i]))
  }

  /** `load_base_attributes(country_data, territory)`: every attribute is
      merged into the record under its canonical name. */
  method LoadBaseAttributes(rec: Record, territory: Node) returns (r: Record)
    ensures r == AssignAll(rec, BaseWrites(territory))
    ensures LastWriteWins(rec, BaseWrites(territory), r)
  {
    var table := AttributeTable(territory.attrs);
    ghost var ws := BaseWrites(territory);
    r := rec;
    for i := 0 to |table|
      invariant r == AssignAll(rec, ws[..i])
    {
      var key := Underscore(table[i].name);
      r := r[key := Text(if key == NationalPrefixForParsing then Strip(table[i].value) else table[i].value)];
      AssignAllStep(rec, ws, i);
    }
    assert ws[..|table|] == ws;
    AssignAllLastWriteWins(rec, ws);
  }

  /** The record after `load_base_attributes`: a key per attribute, holding the
      value of the last attribute whose name canonicalises to it, verbatim
      except `national_prefix_for_parsing`, which is stripped; every key the
      territory does not carry keeps its value. */
  lemma BaseAttributesValues(rec: Record, territory: Node, i: nat)
    requires i < |AttributeTable(territory.attrs)|
    requires IsLastWrite(BaseWrites(territory), i)
    ensures var a := AttributeTable(territory.attrs)[i];
      var r := AssignAll(rec, BaseWrites(territory));
      && Underscore(a.name) in r
      && (Underscore(a.name) != NationalPrefixForParsing ==> r[Underscore(a.name)] == Text(a.value))
      && (Underscore(a.name) == NationalPrefixForParsing ==> r[Underscore(a.name)] == Text(Strip(a.value)))
  {
    AssignAllLastWriteWins(rec, BaseWrites(territory));
  }

  // ---------------------------------------------------------------------------
  // load_references

  /** `territory.css("references sourceUrl")`. */
  function SourceUrls(territory: Node): seq<Node> {
    SelectBelow(territory, ReferencesTag, "sourceUrl")
  }

  function ReferencesOf(territory: Node): seq<string> {
    var urls := SourceUrls(territory);
    seq(|urls|, i requires 0 <= i < |urls| => urls[i].text)
  }

  /** `load_references(country_data, territory)`: the `references` entry is
      replaced by the texts of the `sourceUrl` elements found under
      `references` elements, in document order and untransformed. */
  function LoadReferences(rec: Record, territory: Node): (r: Record)
    ensures r.Keys == rec.Keys + {References}
    ensures forall k :: k in rec && k != References ==> r[k] == rec[k]
    ensures r[References].Texts? && |r[References].items| == |SourceUrls(territory)|
    ensures forall i :: 0 <= i < |SourceUrls(territory)| ==>
              r[References].items[i] == SourceUrls(territory)[i].text
  {
    rec[References := Texts(ReferencesOf(territory))]
  }

  /** A territory without a `references` element gets an empty list. */
  lemma ReferencesWithoutSection(territory: Node)
    requires !Mentions(territory.children, ReferencesTag)
    ensures ReferencesOf(territory) == []
  {
    SelectWithoutOuter(territory.children, ReferencesTag, "sourceUrl");
  }

  /** The `sourceUrl` elements of a territory whose only `references`
      element is its `k`-th child are that element's `sourceUrl` descendants. */
  lemma ReferencesInSection(territory: Node, k: nat)
    requires k < |territory.children| && territory.children[k].name == ReferencesTag
    requires !Mentions(territory.children[..k], ReferencesTag)
    requires !Mentions(territory.children[k + 1..], ReferencesTag)
    ensures SourceUrls(territory) == Named(territory.children[k].children, "sourceUrl")
  {
    SelectSection(territory.children, k, ReferencesTag, "sourceUrl");
  }

  // ---------------------------------------------------------------------------
  // load_validations

  predicate IsExcluded(element: Node) {
    element.name == ReferencesTag || element.name == AvailableFormatsTag
  }

  /** The writes of one validation group: each child under its canonical
      name, with its text stripped. */
  function RuleWrites(element: Node): seq<(string, string)> {
    var cs := element.children;
    seq(|cs|, i requires 0 <= i < |cs| => (Underscore(cs[i].name), Strip(cs[i].text)))
  }

  function GroupOf(element: Node): map<string, string> {
    AssignAll(map[], RuleWrites(element))
  }

  /** The `tap` block of `load_validations`: a fresh hash filled from the
      element's children. */
  method ValidationGroup(element: Node) returns (g: map<string, string>)
    ensures g == GroupOf(element)
    ensures LastWriteWins(map[], RuleWrites(element), g)
  {
    var cs := element.children;
    ghost var ws := RuleWrites(element);
    g := map[];
    for i := 0 to |cs|
      invariant g == AssignAll(map[], ws[..i])
    {
      g := g[Underscore(cs[i].name) := Strip(cs[i].text)];
      AssignAllStep(map[], ws, i);
    }
    assert ws[..|cs|] == ws;
    AssignAllLastWriteWins(map[], ws);
  }

  /** The writes of `load_validations`: one group per child element that is
      neither `references` nor `availableFormats`. */
  function GroupWrites(cs: seq<Node>): seq<(string, map<string, string>)>
    decreases |cs|
  {
    if cs == [] then []
    else GroupWrites(cs[..|cs| - 1]) + GroupWrite(cs[|cs| - 1])
  }

  /** The write, if any, that one child of a territory contributes. */
  function GroupWrite(e: Node): seq<(string, map<string, string>)> {
    if IsExcluded(e) then [] else [(Underscore(e.name), GroupOf(e))]
  }

  lemma GroupWritesStep(cs: seq<Node>, i: nat)
    requires i < |cs|
    ensures GroupWrites(cs[..i + 1]) == GroupWrites(cs[..i]) + GroupWrite(cs[i])
  {
    assert cs[..i + 1][..i] == cs[..i];
  }

  function ValidationsOf(territory: Node): map<string, map<string, string>> {
    AssignAll(map[], GroupWrites(territory.children))
  }

  /** `load_validations(country_data, territory)`: the `validations` entry is
      reset to an empty hash and then filled group by group. */
  method LoadValidations(rec: Record, territory: Node) returns (r: Record)
    ensures r == rec[Validations := Table(ValidationsOf(territory))]
  {
    var cs := territory.children;
    var groups: map<string, map<string, string>> := map[];
    r := rec[Validations := Table(groups)];
    for i := 0 to |cs|
      invariant groups == AssignAll(map[], GroupWrites(cs[..i]))
      invariant r == rec[Validations := Table(groups)]
    {
      ValidationsStep(cs, i);
      var element := cs[i];
      if !IsExcluded(element) {
        var g := ValidationGroup(element);
        Overwrite(rec, Validations, Table(groups), Table(groups[Underscore(element.name) := g]));
        groups := groups[Underscore(element.name) := g];
        r := r[Validations := Table(groups)];
      }
    }
    assert cs[..|cs|] == cs;
  }

  /** What one more child does to the validations. */
  lemma ValidationsStep(cs: seq<Node>, i: nat)
    requires i < |cs|
    ensures AssignAll(map[], GroupWrites(cs[..i + 1]))
            == if IsExcluded(cs[i]) then AssignAll(map[], GroupWrites(cs[..i]))
               else AssignAll(map[], GroupWrites(cs[..i]))[Underscore(cs[i].name) := GroupOf(cs[i])]
  {
    GroupWritesStep(cs, i);
    if !IsExcluded(cs[i]) {
      AssignAllPush(map[], GroupWrites(cs[..i]), GroupWrite(cs[i])[0]);
    } else {
      assert GroupWrites(cs[..i + 1]) == GroupWrites(cs[..i]);
    }
  }

  /** The canonical names of the children that are not excluded. */
  function GroupNames(cs: seq<Node>): set<string> {
    set i | 0 <= i < |cs| && !IsExcluded(cs[i]) :: Underscore(cs[i].name)
  }

  lemma GroupNamesStep(cs: seq<Node>, i: nat)
    requires i < |cs|
    ensures GroupNames(cs[..i + 1]) == GroupNames(cs[..i]) + KeysOf(GroupWrite(cs[i]))
  {
    var p := cs[..i + 1];
    forall k | k in GroupNames(p) ensures k in GroupNames(cs[..i]) + KeysOf(GroupWrite(cs[i])) {
      var j :| 0 <= j < |p| && !IsExcluded(p[j]) && Underscore(p[j].name) == k;
      if j < i { assert cs[..i][j] == p[j]; } else { assert GroupWrite(cs[i])[0].0 == k; }
    }
    forall k | k in GroupNames(cs[..i]) ensures k in GroupNames(p) {
      var j :| 0 <= j < i && !IsExcluded(cs[..i][j]) && Underscore(cs[..i][j].name) == k;
      assert p[j] == cs[..i][j];
    }
    if !IsExcluded(cs[i]) {
      assert p[i] == cs[i];
    }
  }

  /** The validations hold one group per canonical name of a child that is not
      excluded, and nothing else. */
  lemma {:induction false} ValidationKeys(cs: seq<Node>)
    ensures AssignAll(map[], GroupWrites(cs)).Keys == GroupNames(cs)
    decreases |cs|
  {
    AssignAllLastWriteWins(map[], GroupWrites(cs));
    if cs != [] {
      var i := |cs| - 1;
      assert cs[..i + 1] == cs;
      ValidationKeys(cs[..i]);
      AssignAllLastWriteWins(map[], GroupWrites(cs[..i]));
      GroupWritesStep(cs, i);
      KeysOfAppend(GroupWrites(cs[..i]), GroupWrite(cs[i]));
      GroupNamesStep(cs, i);
    }
  }

  /** The group stored under a name is the one built from the last child that
      is not excluded and whose name canonicalises to it. */
  lemma {:induction false} ValidationLastGroupWins(cs: seq<Node>, i: nat)
    requires i < |cs| && !IsExcluded(cs[i])
    requires forall j :: i < j < |cs| && !IsExcluded(cs[j]) ==> Underscore(cs[j].name) != Underscore(cs[i].name)
    ensures Underscore(cs[i].name) in AssignAll(map[], GroupWrites(cs))
    ensures AssignAll(map[], GroupWrites(cs))[Underscore(cs[i].name)] == GroupOf(cs[i])
    decreases |cs|
  {
    var n := |cs| - 1;
    var init := cs[..n];
    if i < n {
      LastGroupInPrefix(cs, init, i);
      ValidationLastGroupWins(init, i);
      ValidationsLastOther(cs, Underscore(cs[i].name));
    } else {
      assert cs[..n + 1] == cs;
      ValidationsStep(cs, n);
    }
  }

  /** The child `i` is still the last of its name in the children before the
      last one. */
  lemma {:induction false} LastGroupInPrefix(cs: seq<Node>, init: seq<Node>, i: nat)
    requires cs != [] && init == cs[..|cs| - 1] && i < |init| && !IsExcluded(cs[i])
    requires forall j :: i < j < |cs| && !IsExcluded(cs[j]) ==> Underscore(cs[j].name) != Underscore(cs[i].name)
    ensures init[i] == cs[i]
    ensures forall j :: i < j < |init| && !IsExcluded(init[j]) ==> Underscore(init[j].name) != Underscore(init[i].name)
  {
    forall j | i < j < |init| && !IsExcluded(init[j])
      ensures Underscore(init[j].name) != Underscore(init[i].name)
    {
      assert init[j] == cs[j];
    }
  }

  /** A last child that is excluded or carries another canonical name leaves
      the group under `key` as it was. */
  lemma {:induction false} ValidationsLastOther(cs: seq<Node>, key: string)
    requires cs != [] && (IsExcluded(cs[|cs| - 1]) || Underscore(cs[|cs| - 1].name) != key)
    requires key in AssignAll(map[], GroupWrites(cs[..|cs| - 1]))
    ensures key in AssignAll(map[], GroupWrites(cs))
    ensures AssignAll(map[], GroupWrites(cs))[key] == AssignAll(map[], GroupWrites(cs[..|cs| - 1]))[key]
  {
    var n := |cs| - 1;
    assert cs[..n + 1] == cs;
    ValidationsStep(cs, n);
  }

  /** Every stored rule is stripped of newlines and spaces. */
  lemma {:induction false} GroupIsStripped(element: Node, k: string)
    requires k in GroupOf(element)
    ensures IsStripped(GroupOf(element)[k])
  {
    AssignAllValues(map[], RuleWrites(element), k);
    var i :| 0 <= i < |RuleWrites(element)| && RuleWrites(element)[i] == (k, GroupOf(element)[k]);
    StripIsStripped(element.children[i].text);
  }

  /** An element without children gives an empty group, stored all the same. */
  lemma ChildlessGroup(element: Node)
    requires element.children == []
    ensures GroupOf(element) == map[]
  {
  }

  // ---------------------------------------------------------------------------
  // load_formats

  /** One attribute of a `numberFormat`: stripped unless it is the
      `national_prefix_formatting_rule`. */
  function FormatAttrWrite(a: Attr): (string, string) {
    var key := Underscore(a.name);
    (key, if key == NationalPrefixFormattingRule then a.value else Strip(a.value))
  }

  /** One child of a `numberFormat`: stripped unless it is the `format`. */
  function FormatChildWrite(c: Node): (string, string) {
    var key := Underscore(c.name);
    (key, if key == Format then c.text else Strip(c.text))
  }

  function FormatAttrWrites(f: Node): seq<(string, string)> {
    var table := AttributeTable(f.attrs);
    seq(|table|, i requires 0 <= i < |table| => FormatAttrWrite(table[i]))
  }

  function FormatChildWrites(f: Node): seq<(string, string)> {
    var cs := f.children;
    seq(|cs|, i requires 0 <= i < |cs| => FormatChildWrite(cs[i]))
  }

  /** The attributes are written first, then the children. */
  function FormatOf(f: Node): map<string, string> {
    AssignAll(AssignAll(map[], FormatAttrWrites(f)), FormatChildWrites(f))
  }

  /** The `tap` block of `load_formats`: one hash per `numberFormat`, filled
      from its attributes and then from its children. */
  method FormatRecord(f: Node) returns (h: map<string, string>)
    ensures h == FormatOf(f)
  {
    h := map[];
    h := AddFormatAttributes(h, f);
    h := AddFormatChildren(h, f);
  }

  /** The attribute loop of the `tap` block. */
  method AddFormatAttributes(h0: map<string, string>, f: Node) returns (h: map<string, string>)
    ensures h == AssignAll(h0, FormatAttrWrites(f))
  {
    var table := AttributeTable(f.attrs);
    ghost var ws := FormatAttrWrites(f);
    h := h0;
    for i := 0 to |table|
      invariant h == AssignAll(h0, ws[..i])
    {
      var key := Underscore(table[i].name);
      h := h[key := if key == NationalPrefixFormattingRule then table[i].value else Strip(table[i].value)];
      AssignAllStep(h0, ws, i);
    }
    assert ws[..|table|] == ws;
  }

  /** The child loop of the `tap` block. */
  method AddFormatChildren(h0: map<string, string>, f: Node) returns (h: map<string, string>)
    ensures h == AssignAll(h0, FormatChildWrites(f))
  {
    var cs := f.children;
    ghost var ws := FormatChildWrites(f);
    h := h0;
    for j := 0 to |cs|
      invariant h == AssignAll(h0, ws[..j])
    {
      var key := Underscore(cs[j].name);
      h := h[key := if key == Format then cs[j].text else Strip(cs[j].text)];
      AssignAllStep(h0, ws, j);
    }
    assert ws[..|cs|] == ws;
  }

  /** `territory.css("availableFormats numberFormat")`. */
  function NumberFormats(territory: Node): seq<Node> {
    SelectBelow(territory, AvailableFormatsTag, "numberFormat")
  }

  function FormatsOf(territory: Node): seq<map<string, string>> {
    var fs := NumberFormats(territory);
    seq(|fs|, i requires 0 <= i < |fs| => FormatOf(fs[i]))
  }

  /** `load_formats(country_data, territory)`: the `formats` entry is replaced
      by one hash per `numberFormat`, in document order. */
  method LoadFormats(rec: Record, territory: Node) returns (r: Record)
    ensures r == rec[Formats := Records(FormatsOf(territory))]
    ensures |r[Formats].hashes| == |NumberFormats(territory)|
  {
    var fs := NumberFormats(territory);
    var list: seq<map<string, string>> := [];
    for i := 0 to |fs|
      invariant |list| == i
      invariant forall j :: 0 <= j < i ==> list[j] == FormatOf(fs[j])
    {
      var h := FormatRecord(fs[i]);
      list := list + [h];
    }
    assert list == FormatsOf(territory);
    r := rec[Formats := Records(list)];
  }

  /** A territory without an `availableFormats` element gets an empty list. */
  lemma FormatsWithoutSection(territory: Node)
    requires !Mentions(territory.children, AvailableFormatsTag)
    ensures FormatsOf(territory) == []
  {
    SelectWithoutOuter(territory.children, AvailableFormatsTag, "numberFormat");
  }

  /** The format records of a territory whose only `availableFormats` element
      is its `k`-th child come from that element's `numberFormat` descendants. */
  lemma NumberFormatsInSection(territory: Node, k: nat)
    requires k < |territory.children| && territory.children[k].name == AvailableFormatsTag
    requires !Mentions(territory.children[..k], AvailableFormatsTag)
    requires !Mentions(territory.children[k + 1..], AvailableFormatsTag)
    ensures NumberFormats(territory) == Named(territory.children[k].children, "numberFormat")
  {
    SelectSection(territory.children, k, AvailableFormatsTag, "numberFormat");
  }

  /** A child written after an attribute of the same canonical name wins; the
      child's text is kept verbatim only when it is the `format`. */
  lemma FormatChildWins(f: Node, i: nat)
    requires i < |f.children| && IsLastWrite(FormatChildWrites(f), i)
    ensures var c := f.children[i];
      && Underscore(c.name) in FormatOf(f)
      && FormatOf(f)[Underscore(c.name)] == (if Underscore(c.name) == Format then c.text else Strip(c.text))
  {
    AssignAllLastWriteWins(AssignAll(map[], FormatAttrWrites(f)), FormatChildWrites(f));
  }

  /** An attribute no child overrides keeps its value, verbatim only when it is
      the `national_prefix_formatting_rule`. */
  lemma FormatAttributeKept(f: Node, i: nat)
    requires i < |AttributeTable(f.attrs)| && IsLastWrite(FormatAttrWrites(f), i)
    requires FormatAttrWrites(f)[i].0 !in KeysOf(FormatChildWrites(f))
    ensures var a := AttributeTable(f.attrs)[i];
      && Underscore(a.name) in FormatOf(f)
      && FormatOf(f)[Underscore(a.name)]
         == (if Underscore(a.name) == NationalPrefixFormattingRule then a.value else Strip(a.value))
  {
    AssignAllLastWriteWins(map[], FormatAttrWrites(f));
    AssignAllLastWriteWins(AssignAll(map[], FormatAttrWrites(f)), FormatChildWrites(f));
  }

  /** Every value of a format hash is stripped except under the two exempt
      keys. */
  lemma FormatIsStripped(f: Node, k: string)
    requires k in FormatOf(f) && k != NationalPrefixFormattingRule && k != Format
    ensures IsStripped(FormatOf(f)[k])
  {
    var inner := AssignAll(map[], FormatAttrWrites(f));
    AssignAllValues(inner, FormatChildWrites(f), k);
    if k in inner && FormatOf(f)[k] == inner[k] {
      AssignAllValues(map[], FormatAttrWrites(f), k);
      var i :| 0 <= i < |FormatAttrWrites(f)| && FormatAttrWrites(f)[i] == (k, inner[k]);
      StripIsStripped(AttributeTable(f.attrs)[i].value);
    } else {
      var i :| 0 <= i < |FormatChildWrites(f)| && FormatChildWrites(f)[i] == (k, FormatOf(f)[k]);
      StripIsStripped(f.children[i].text);
    }
  }
}
