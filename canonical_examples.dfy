/** The canonicaliser on six example names. `sourceUrl`,
    `nationalPrefixForParsing` and `HTMLParser` are split into the words the
    general theorems speak of; `id`, `a-b` and `A::B` are worked through step
    by step. The small literal facts each instance needs are proved one per
    lemma. */
module CanonicalExamples {
  import opened Canonical

  lemma UnderscoreExamples()
    ensures Underscore("id") == "id"
    ensures Underscore("sourceUrl") == "source_url"
    ensures Underscore("nationalPrefixForParsing") == "national_prefix_for_parsing"
    ensures Underscore("HTMLParser") == "html_parser"
    ensures Underscore("a-b") == "a_b"
    ensures Underscore("A::B") == "a/b"
  {
    assert !NeedsRewrite("id");
    SourceUrlExample();
    NationalPrefixExample();
    AcronymExample();
    HyphenExample();
    NamespaceExample();
  }

  // "sourceUrl"

  lemma SourceUrlExample()
    ensures Underscore("sourceUrl") == "source_url"
  {
    SourceUrlWords();
    CamelCaseToSnakeCase("source", ["Url"]);
    SourceUrlText();
  }

  lemma SourceUrlWords()
    ensures IsLowerWord("source") && AllCapitalised(["Url"])
  {
    assert IsCapitalised(["Url"][0]);
  }

  lemma SourceUrlText()
    ensures "source" + Concat(["Url"]) == "sourceUrl"
    ensures Downcase("source" + Marked(["Url"])) == "source_url"
  {
    assert Concat(["Url"]) == "Url";
    assert Marked(["Url"]) == "_Url";
    assert "source" + "_Url" == "source_Url";
  }

  // "nationalPrefixForParsing"

  lemma NationalPrefixExample()
    ensures Underscore("nationalPrefixForParsing") == "national_prefix_for_parsing"
  {
    NationalPrefixWords();
    CamelCaseToSnakeCase("national", ["Prefix", "For", "Parsing"]);
    NationalPrefixJoined();
    NationalPrefixMarked();
  }

  lemma NationalPrefixWords()
    ensures IsLowerWord("national") && AllCapitalised(["Prefix", "For", "Parsing"])
  {
    var ws := ["Prefix", "For", "Parsing"];
    assert IsCapitalised(ws[0]) && IsCapitalised(ws[1]) && IsCapitalised(ws[2]);
  }

  lemma NationalPrefixJoined()
    ensures "national" + Concat(["Prefix", "For", "Parsing"]) == "nationalPrefixForParsing"
  {
    var ws := ["Prefix", "For", "Parsing"];
    assert Concat(ws[2..]) == "Parsing";
    assert Concat(ws[1..]) == "For" + "Parsing";
    assert Concat(ws) == "Prefix" + ("For" + "Parsing");
  }

  lemma NationalPrefixMarked()
    ensures Downcase("national" + Marked(["Prefix", "For", "Parsing"])) == "national_prefix_for_parsing"
  {
    var ws := ["Prefix", "For", "Parsing"];
    assert Marked(ws[2..]) == "_Parsing";
    assert Marked(ws[1..]) == "_For" + "_Parsing";
    assert Marked(ws) == "_Prefix" + ("_For" + "_Parsing");
    NationalPrefixLower();
  }

  lemma NationalPrefixLower()
    ensures Downcase("national" + ("_Prefix" + ("_For" + "_Parsing"))) == "national_prefix_for_parsing"
  {
    assert "national" + ("_Prefix" + ("_For" + "_Parsing")) == "national_Prefix_For_Parsing";
  }

  // "HTMLParser"

  lemma AcronymExample()
    ensures Underscore("HTMLParser") == "html_parser"
  {
    AcronymWords();
    AcronymToSnakeCase("HTML", "Parser");
    AcronymText();
  }

  lemma AcronymWords()
    ensures IsUpperWord("HTML") && IsCapitalised("Parser")
  {
  }

  lemma AcronymText()
    ensures "HTML" + "Parser" == "HTMLParser"
    ensures Downcase("HTML" + "_" + "Parser") == "html_parser"
  {
    assert "HTML" + "_" + "Parser" == "HTML_Parser";
  }

  // "a-b" and "A::B"

  lemma HyphenExample()
    ensures Underscore("a-b") == "a_b"
  {
    var s := "a-b";
    assert s[1] == '-';
    assert !HasColonPair(s) && !HasAcronymPair(s) && !HasCamelBoundary(s);
    ColonsToSlashIdentity(s);
    SplitAcronymsIdentity(s);
    SplitCamelIdentity(s);
    HyphenLower();
  }

  lemma HyphenLower()
    ensures Downcase(HyphensToUnderscores("a-b")) == "a_b"
  {
  }

  lemma NamespaceExample()
    ensures Underscore("A::B") == "a/b"
  {
    var s := "A::B";
    assert IsUpper(s[0]);
    NamespaceColons();
    NamespaceRest();
  }

  lemma NamespaceColons()
    ensures ColonsToSlash("A::B") == "A/B"
  {
    assert ColonsToSlash("B") == "B";
    assert ColonsToSlash("::B") == "/B";
  }

  lemma NamespaceRest()
    ensures Downcase(HyphensToUnderscores(SplitCamel(SplitAcronyms("A/B")))) == "a/b"
  {
    var s := "A/B";
    assert !HasAcronymPair(s) && !HasCamelBoundary(s);
    SplitAcronymsIdentity(s);
    SplitCamelIdentity(s);
  }
}
