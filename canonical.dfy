/** The key canonicaliser `underscore` of the data importer: a mixed-case,
    hyphenated or `::`-qualified name becomes a lower-case, underscore-separated
    key. Each regular-expression rewrite of `underscore` is one function here,
    scanning left to right and never revisiting what it has rewritten, as a
    global substitution does. Characters are treated as ASCII. */
module Canonical {

  predicate IsUpper(c: char) { 'A' <= c <= 'Z' }
  predicate IsLower(c: char) { 'a' <= c <= 'z' }
  predicate IsDigit(c: char) { '0' <= c <= '9' }

  /** The character class `[A-Z\d]`. */
  predicate IsUpperOrDigit(c: char) { IsUpper(c) || IsDigit(c) }

  /** The character class `[a-z\d]`. */
  predicate IsLowerOrDigit(c: char) { IsLower(c) || IsDigit(c) }

  predicate HasColonPair(s: string) {
    exists i :: 0 <= i < |s| - 1 && s[i] == ':' && s[i + 1] == ':'
  }

  predicate HasUpper(s: string) {
    exists i :: 0 <= i < |s| && IsUpper(s[i])
  }

  predicate HasHyphen(s: string) {
    exists i :: 0 <= i < |s| && s[i] == '-'
  }

  /** The guard `/[A-Z-]|::/`: only names it matches are rewritten. */
  predicate NeedsRewrite(s: string) {
    HasUpper(s) || HasHyphen(s) || HasColonPair(s)
  }

  /** Some lower-case letter or digit is directly followed by an upper-case letter. */
  predicate HasCamelBoundary(s: string) {
    exists i :: 0 <= i < |s| - 1 && IsLowerOrDigit(s[i]) && IsUpper(s[i + 1])
  }

  /** Some upper-case letter or digit is directly followed by an upper-case
      letter: the only place an acronym split can begin to match. */
  predicate HasAcronymPair(s: string) {
    exists i :: 0 <= i < |s| - 1 && IsUpperOrDigit(s[i]) && IsUpper(s[i + 1])
  }

  /** `gsub(/::/, '/')`. */
  function ColonsToSlash(s: string): string {
    if |s| >= 2 && s[0] == ':' && s[1] == ':' then "/" + ColonsToSlash(s[2..])
    else if s == [] then []
    else [s[0]] + ColonsToSlash(s[1..])
  }

  /** Length of the longest prefix of `s` drawn from `[A-Z\d]`. */
  function AcronymRun(s: string): nat {
    if s != [] && IsUpperOrDigit(s[0]) then 1 + AcronymRun(s[1..]) else 0
  }

  /** The run is the longest prefix of upper-case letters and digits. */
  lemma {:induction false} AcronymRunFacts(s: string)
    ensures AcronymRun(s) <= |s|
    ensures forall i :: 0 <= i < AcronymRun(s) ==> IsUpperOrDigit(s[i])
    ensures AcronymRun(s) < |s| ==> !IsUpperOrDigit(s[AcronymRun(s)])
  {
    if s != [] && IsUpperOrDigit(s[0]) {
      AcronymRunFacts(s[1..]);
      forall i | 0 <= i < AcronymRun(s) ensures IsUpperOrDigit(s[i]) {
        if i > 0 { assert s[i] == s[1..][i - 1]; }
      }
    }
  }

  /** `gsub(/([A-Z\d]+)([A-Z][a-z])/, '\1_\2')`. At a given position the greedy
      run `[A-Z\d]+` can only give back its last character, so a match starts
      here exactly when the run is at least two long, ends in an upper-case
      letter and is followed by a lower-case one; the match ends after that
      lower-case letter and scanning resumes there. */
  function SplitAcronyms(s: string): string {
    if s == [] then []
    else
      var n := AcronymRun(s);
      if 2 <= n < |s| && IsUpper(s[n - 1]) && IsLower(s[n]) then
        s[..n - 1] + "_" + s[n - 1..n + 1] + SplitAcronyms(s[n + 1..])
      else
        [s[0]] + SplitAcronyms(s[1..])
  }

  /** `gsub(/([a-z\d])([A-Z])/, '\1_\2')`. */
  function SplitCamel(s: string): string {
    if |s| >= 2 && IsLowerOrDigit(s[0]) && IsUpper(s[1]) then [s[0], '_', s[1]] + SplitCamel(s[2..])
    else if s == [] then []
    else [s[0]] + SplitCamel(s[1..])
  }

  /** `tr("-", "_")`. */
  function HyphensToUnderscores(s: string): (r: string)
    ensures |r| == |s| && !HasHyphen(r)
    ensures forall i :: 0 <= i < |s| && s[i] == '-' ==> r[i] == '_'
    ensures forall i :: 0 <= i < |s| && s[i] != '-' ==> r[i] == s[i]
  {
    seq(|s|, i requires 0 <= i < |s| => if s[i] == '-' then '_' else s[i])
  }

  /** Upper-case ASCII letter to its lower-case letter; anything else unchanged. */
  function ToLower(c: char): (d: char)
    ensures !IsUpper(d)
    ensures IsUpper(c) ==> IsLower(d) && d as int - c as int == 32
    ensures !IsUpper(c) ==> d == c
  {
    if IsUpper(c) then (c as int + 32) as char else c
  }

  /** `downcase`, restricted to ASCII. */
  function Downcase(s: string): (r: string)
    ensures |r| == |s| && !HasUpper(r)
    ensures forall i :: 0 <= i < |s| && !IsUpper(s[i]) ==> r[i] == s[i]
    ensures forall i :: 0 <= i < |s| && IsUpper(s[i]) ==> IsLower(r[i])
    ensures forall i :: 0 <= i < |s| && IsUpper(s[i]) ==> r[i] as int == s[i] as int + 32
  {
    seq(|s|, i requires 0 <= i < |s| => ToLower(s[i]))
  }

  /** `underscore(camel_cased_word)`. */
  function Underscore(s: string): string {
    if !NeedsRewrite(s) then s
    else Downcase(HyphensToUnderscores(SplitCamel(SplitAcronyms(ColonsToSlash(s)))))
  }

  /** A rewritten name carries nothing the guard looks for: no upper-case
      letter, no hyphen and no `::`. */
  lemma {:induction false} UnderscoreIsClean(s: string)
    ensures !NeedsRewrite(Underscore(s))
  {
    if NeedsRewrite(s) {
      var c := ColonsToSlash(s);
      ColonsToSlashFacts(s);
      SplitAcronymsFacts(c);
      SplitCamelFacts(SplitAcronyms(c));
      var a := SplitCamel(SplitAcronyms(c));
      var h := HyphensToUnderscores(a);
      var r := Downcase(h);
      assert r == Underscore(s);
      assert !HasColonPair(a);
      forall i | 0 <= i < |r| - 1
        ensures !(r[i] == ':' && r[i + 1] == ':')
      {
        assert (r[i] == ':') == (h[i] == ':') == (a[i] == ':');
        assert (r[i + 1] == ':') == (h[i + 1] == ':') == (a[i + 1] == ':');
      }
      forall i | 0 <= i < |r|
        ensures r[i] != '-'
      {
        assert h[i] != '-';
      }
    }
  }

  /** The guard is only a shortcut: on a name it lets through, the five
      rewrites would have changed nothing either. */
  lemma {:induction false} RewriteFixesCleanNames(s: string)
    requires !NeedsRewrite(s)
    ensures Downcase(HyphensToUnderscores(SplitCamel(SplitAcronyms(ColonsToSlash(s))))) == s
  {
    ColonsToSlashFacts(s);
    assert !HasAcronymPair(s) && !HasCamelBoundary(s);
    SplitAcronymsIdentity(s);
    SplitCamelFacts(s);
    var h := HyphensToUnderscores(s);
    assert h == s;
    var r := Downcase(s);
    assert r == s;
  }

  /** Canonicalising a canonical name changes nothing. */
  lemma {:induction false} UnderscoreIdempotent(s: string)
    ensures Underscore(Underscore(s)) == Underscore(s)
  {
    UnderscoreIsClean(s);
  }

  // ---------------------------------------------------------------------------
  // Camel-case names and acronyms

  predicate IsLowerWord(w: string) {
    forall i :: 0 <= i < |w| ==> IsLower(w[i])
  }

  predicate IsUpperWord(w: string) {
    forall i :: 0 <= i < |w| ==> IsUpper(w[i])
  }

  /** An upper-case letter followed by at least one lower-case letter. */
  predicate IsCapitalised(w: string) {
    |w| >= 2 && IsUpper(w[0]) && IsLowerWord(w[1..])
  }

  predicate AllCapitalised(words: seq<string>) {
    forall k :: 0 <= k < |words| ==> IsCapitalised(words[k])
  }

  /** The words written one after the other. */
  function Concat(words: seq<string>): string {
    if words == [] then [] else words[0] + Concat(words[1..])
  }

  /** The words, each preceded by `_`. */
  function Marked(words: seq<string>): string {
    if words == [] then [] else "_" + words[0] + Marked(words[1..])
  }

  /** Only ASCII letters, and every upper-case letter but the last character
      is followed by a lower-case one. */
  predicate IsCamelText(s: string) {
    (forall i :: 0 <= i < |s| ==> IsUpper(s[i]) || IsLower(s[i]))
    && (forall i :: 0 <= i < |s| - 1 && IsUpper(s[i]) ==> IsLower(s[i + 1]))
  }

  /** A lower-case word followed by capitalised words, such as
      `nationalPrefixForParsing`, becomes those words joined by `_` and
      lower-cased: `national_prefix_for_parsing`. */
  lemma {:induction false} CamelCaseToSnakeCase(first: string, words: seq<string>)
    requires first != [] && IsLowerWord(first) && AllCapitalised(words)
    ensures Underscore(first + Concat(words)) == Downcase(first + Marked(words))
  {
    var s := first + Concat(words);
    var m := first + Marked(words);
    CamelWordsText(first, words);
    CamelWordsSplit(first, words);
    MarkedHasNoHyphen(words);
    NoHyphenConcat(first, Marked(words));
    CamelTextIsPlain(s);
    if words == [] {
      assert s == first && m == first;
      assert !HasUpper(s);
      assert Downcase(m) == m;
    } else {
      assert s[|first|] == words[0][0];
      assert HasUpper(s);
      ColonsToSlashIdentity(s);
      SplitAcronymsIdentity(s);
      assert HyphensToUnderscores(m) == m;
    }
  }

  /** An acronym followed by a capitalised word, such as `HTMLParser`,
      becomes `html_parser`: the underscore goes before the last upper-case
      letter of the run. */
  lemma {:induction false} AcronymToSnakeCase(acronym: string, word: string)
    requires acronym != [] && IsUpperWord(acronym) && IsCapitalised(word)
    ensures Underscore(acronym + word) == Downcase(acronym + "_" + word)
  {
    var s := acronym + word;
    var a := acronym + "_" + word;
    AcronymText(acronym, word);
    assert HasUpper(s) by { assert IsUpper(s[0]); }
    ColonsToSlashIdentity(s);
    AcronymSplit(acronym, word);
    SplitCamelIdentity(a);
    assert HyphensToUnderscores(a) == a;
  }

  /** What the characters of an acronym followed by a word look like, before
      and after the underscore goes in. */
  lemma AcronymText(acronym: string, word: string)
    requires acronym != [] && IsUpperWord(acronym) && IsCapitalised(word)
    ensures !HasColonPair(acronym + word)
    ensures !HasCamelBoundary(acronym + "_" + word) && !HasHyphen(acronym + "_" + word)
  {
    var s := acronym + word;
    var a := acronym + "_" + word;
    var k := |acronym|;
    forall i | 0 <= i < |s| ensures s[i] != ':' {
      if i > k { assert s[i] == word[1..][i - k - 1]; }
    }
    forall i | 0 <= i < |a| - 1 ensures !(IsLowerOrDigit(a[i]) && IsUpper(a[i + 1])) {
      if i > k + 1 {
        assert a[i] == word[1..][i - k - 2] && a[i + 1] == word[1..][i - k - 1];
      }
    }
    forall i | 0 <= i < |a| ensures a[i] != '-' {
      if i > k + 1 { assert a[i] == word[1..][i - k - 2]; }
    }
  }

  /** The acronym rewrite puts one underscore between the acronym and the word. */
  lemma AcronymSplit(acronym: string, word: string)
    requires acronym != [] && IsUpperWord(acronym) && IsCapitalised(word)
    ensures SplitAcronyms(acronym + word) == acronym + "_" + word
  {
    var s := acronym + word;
    var n := |acronym| + 1;
    AcronymRunOfWord(acronym, word);
    AcronymMatchUnfold(s, n);
    AcronymPieces(acronym, word);
    CapitalisedRest(word);
    LowerWordHasNoAcronymPair(word[2..]);
    SplitAcronymsIdentity(word[2..]);
  }

  lemma AcronymRunOfWord(acronym: string, word: string)
    requires acronym != [] && IsUpperWord(acronym) && IsCapitalised(word)
    ensures AcronymRun(acronym + word) == |acronym| + 1
    ensures IsUpper((acronym + word)[|acronym|]) && IsLower((acronym + word)[|acronym| + 1])
  {
    var s := acronym + word;
    var k := |acronym|;
    AcronymRunFacts(s);
    assert s[k] == word[0] && s[k + 1] == word[1..][0];
    assert forall i :: 0 <= i < k ==> s[i] == acronym[i];
  }

  lemma AcronymPieces(acronym: string, word: string)
    requires |word| >= 2
    ensures var s := acronym + word; var n := |acronym| + 1;
      s[..n - 1] + "_" + s[n - 1..n + 1] + word[2..] == acronym + "_" + word
  {
    var s := acronym + word;
    var n := |acronym| + 1;
    assert s[..n - 1] == acronym;
    assert s[n - 1..n + 1] == word[..2];
    assert word[..2] + word[2..] == word;
  }

  lemma CapitalisedRest(word: string)
    requires IsCapitalised(word)
    ensures IsLowerWord(word[2..])
  {
    forall i | 0 <= i < |word[2..]| ensures IsLower(word[2..][i]) {
      assert word[2..][i] == word[1..][i + 1];
    }
  }

  lemma LowerWordHasNoAcronymPair(w: string)
    requires IsLowerWord(w)
    ensures !HasAcronymPair(w)
  {
    assert forall i :: 0 <= i < |w| ==> !IsUpperOrDigit(w[i]);
  }

  /** Dropping the first word keeps the rest capitalised. */
  lemma AllCapitalisedTail(words: seq<string>)
    requires words != [] && AllCapitalised(words)
    ensures AllCapitalised(words[1..]) && IsCapitalised(words[0])
  {
    assert IsCapitalised(words[0]);
    forall k | 0 <= k < |words[1..]| ensures IsCapitalised(words[1..][k]) {
      assert words[1..][k] == words[k + 1];
    }
  }

  /** The text of a lower-case word followed by capitalised words is camel text. */
  lemma {:induction false} CamelWordsText(first: string, words: seq<string>)
    requires first != [] && IsLowerWord(first) && AllCapitalised(words)
    ensures IsCamelText(first + Concat(words))
    decreases words
  {
    if words != [] {
      AllCapitalisedTail(words);
      var w := words[0];
      var t := w[1..];
      CamelWordsText(t, words[1..]);
      var s' := t + Concat(words[1..]);
      var s := first + Concat(words);
      assert s == first + [w[0]] + s';
      forall i | 0 <= i < |s| ensures IsUpper(s[i]) || IsLower(s[i]) {
        if i > |first| { assert s[i] == s'[i - |first| - 1]; }
      }
      forall i | 0 <= i < |s| - 1 && IsUpper(s[i]) ensures IsLower(s[i + 1]) {
        if i == |first| { assert s[i + 1] == s'[0] == t[0]; }
        else if i > |first| { assert s[i] == s'[i - |first| - 1] && s[i + 1] == s'[i - |first|]; }
      }
    }
  }

  /** The camel rewrite puts an underscore before each capitalised word and
      nowhere else. */
  lemma {:induction false} CamelWordsSplit(first: string, words: seq<string>)
    requires first != [] && IsLowerWord(first) && AllCapitalised(words)
    ensures SplitCamel(first + Concat(words)) == first + Marked(words)
    decreases words
  {
    if words == [] {
      assert first + Concat(words) == first && first + Marked(words) == first;
      assert !HasCamelBoundary(first);
      SplitCamelIdentity(first);
    } else {
      AllCapitalisedTail(words);
      var w := words[0];
      CamelWordsSplit(w[1..], words[1..]);
      WordsCons(words);
      SplitCamelAfterLowerWord(first, w[0], w[1..] + Concat(words[1..]));
    }
  }

  /** The first word's capital, then the rest of the text. */
  lemma WordsCons(words: seq<string>)
    requires words != [] && words[0] != []
    ensures Concat(words) == [words[0][0]] + (words[0][1..] + Concat(words[1..]))
    ensures Marked(words) == ['_', words[0][0]] + (words[0][1..] + Marked(words[1..]))
  {
    var w := words[0];
    CapitalThenRest(w, Concat(words[1..]));
    CapitalThenRest(w, Marked(words[1..]));
    assert "_" + w + Marked(words[1..]) == ['_'] + (w + Marked(words[1..]));
  }

  lemma CapitalThenRest(w: string, rest: string)
    requires w != []
    ensures w + rest == [w[0]] + (w[1..] + rest)
  {
    assert w == [w[0]] + w[1..];
  }

  /** A lower-case word directly before an upper-case letter gets an
      underscore between them and is otherwise left alone. */
  lemma SplitCamelAfterLowerWord(first: string, c: char, rest: string)
    requires first != [] && IsLowerWord(first) && IsUpper(c)
    ensures SplitCamel(first + ([c] + rest)) == first + (['_', c] + SplitCamel(rest))
  {
    var l := |first| - 1;
    var init := first[..l];
    assert !HasCamelBoundary(init);
    SplitCamelIdentity(init);
    LastThenRest(first, [c] + rest);
    SplitCamelConcat(init, [first[l]] + ([c] + rest));
    SplitCamelPair(first[l], c, rest);
    LastThenRest(first, ['_', c] + SplitCamel(rest));
  }

  /** One step of the camel rewrite at a boundary. */
  lemma SplitCamelPair(a: char, c: char, rest: string)
    requires IsLowerOrDigit(a) && IsUpper(c)
    ensures SplitCamel([a] + ([c] + rest)) == [a] + (['_', c] + SplitCamel(rest))
  {
    assert [a] + ([c] + rest) == [a, c] + rest;
    assert ([a, c] + rest)[2..] == rest;
    assert [a, '_', c] + SplitCamel(rest) == [a] + (['_', c] + SplitCamel(rest));
  }

  lemma LastThenRest(w: string, rest: string)
    requires w != []
    ensures w + rest == w[..|w| - 1] + ([w[|w| - 1]] + rest)
  {
    assert w == w[..|w| - 1] + [w[|w| - 1]];
  }

  /** Capitalised words marked with underscores carry no hyphen. */
  lemma {:induction false} MarkedHasNoHyphen(words: seq<string>)
    requires AllCapitalised(words)
    ensures !HasHyphen(Marked(words))
    decreases words
  {
    if words != [] {
      AllCapitalisedTail(words);
      MarkedHasNoHyphen(words[1..]);
      var w := words[0];
      assert !HasHyphen(w) by {
        forall i | 0 <= i < |w| ensures w[i] != '-' {
          if i > 0 { assert w[i] == w[1..][i - 1]; }
        }
      }
      NoHyphenConcat("_", w);
      NoHyphenConcat("_" + w, Marked(words[1..]));
    }
  }

  lemma NoHyphenConcat(a: string, b: string)
    ensures !HasHyphen(a) && !HasHyphen(b) ==> !HasHyphen(a + b)
  {
    if !HasHyphen(a) && !HasHyphen(b) {
      forall i | 0 <= i < |a + b| ensures (a + b)[i] != '-' {
        if i >= |a| { assert (a + b)[i] == b[i - |a|]; }
      }
    }
  }

  /** Camel text holds no `::`, no hyphen and no acronym pair. */
  lemma CamelTextIsPlain(s: string)
    requires IsCamelText(s)
    ensures !HasColonPair(s) && !HasHyphen(s) && !HasAcronymPair(s)
  {
    assert forall i :: 0 <= i < |s| ==> s[i] != ':' && s[i] != '-' && !IsDigit(s[i]);
  }

  // ---------------------------------------------------------------------------
  // What each rewrite step does

  /** After the `::` rewrite no `::` is left; a name without one is unchanged. */
  lemma {:induction false} ColonsToSlashFacts(s: string)
    ensures !HasColonPair(ColonsToSlash(s))
    ensures !HasColonPair(s) ==> ColonsToSlash(s) == s
    ensures |s| > 0 ==> |ColonsToSlash(s)| > 0
    ensures |s| > 0 ==> ColonsToSlash(s)[0] == (if |s| >= 2 && s[0] == ':' && s[1] == ':' then '/' else s[0])
  {
    if |s| >= 2 && s[0] == ':' && s[1] == ':' {
      ColonsToSlashFacts(s[2..]);
      NoColonPairConcat("/", ColonsToSlash(s[2..]));
    } else if s != [] {
      ColonsToSlashFacts(s[1..]);
      NoColonPairSuffix(s, 1);
      NoColonPairConcat([s[0]], ColonsToSlash(s[1..]));
    }
  }

  /** The acronym rewrite only inserts `_` after a run of upper-case letters
      and digits, so it keeps the first character and creates no `::`. */
  lemma {:induction false} SplitAcronymsFacts(s: string)
    ensures |s| > 0 ==> |SplitAcronyms(s)| > 0 && SplitAcronyms(s)[0] == s[0]
    ensures !HasColonPair(s) ==> !HasColonPair(SplitAcronyms(s))
  {
    SplitAcronymsHead(s);
    if s != [] && !HasColonPair(s) {
      var n := AcronymRun(s);
      if 2 <= n < |s| && IsUpper(s[n - 1]) && IsLower(s[n]) {
        SplitAcronymsFacts(s[n + 1..]);
        NoColonPairSuffix(s, n + 1);
        AcronymMatchNoColon(s, n);
      } else {
        SplitAcronymsFacts(s[1..]);
        NoColonPairSuffix(s, 1);
        NoColonPairConcat([s[0]], SplitAcronyms(s[1..]));
      }
    }
  }

  lemma SplitAcronymsHead(s: string)
    ensures |s| > 0 ==> |SplitAcronyms(s)| > 0 && SplitAcronyms(s)[0] == s[0]
  {
  }

  /** The text a match produces holds no `:`, so it joins the rest without
      creating `::`. */
  lemma AcronymMatchNoColon(s: string, n: nat)
    requires n == AcronymRun(s) && 2 <= n < |s| && IsUpper(s[n - 1]) && IsLower(s[n])
    requires !HasColonPair(SplitAcronyms(s[n + 1..]))
    ensures !HasColonPair(SplitAcronyms(s))
  {
    var head := s[..n - 1] + "_" + s[n - 1..n + 1];
    AcronymMatchUnfold(s, n);
    AcronymRunFacts(s);
    AcronymHeadHasNoColon(s, n);
    NoColonPairConcat(head, SplitAcronyms(s[n + 1..]));
  }

  lemma AcronymMatchUnfold(s: string, n: nat)
    requires n == AcronymRun(s) && 2 <= n < |s| && IsUpper(s[n - 1]) && IsLower(s[n])
    ensures SplitAcronyms(s) == s[..n - 1] + "_" + s[n - 1..n + 1] + SplitAcronyms(s[n + 1..])
  {
  }

  predicate HasNoColon(s: string) {
    forall i :: 0 <= i < |s| ==> s[i] != ':'
  }

  lemma AcronymHeadHasNoColon(s: string, n: nat)
    requires 2 <= n < |s| && IsLower(s[n])
    requires forall i :: 0 <= i < n ==> IsUpperOrDigit(s[i])
    ensures HasNoColon(s[..n - 1] + "_" + s[n - 1..n + 1])
  {
    var head := s[..n - 1] + "_" + s[n - 1..n + 1];
    forall i | 0 <= i < n + 2 ensures head[i] != ':' {
      if i < n - 1 {
        assert head[i] == s[i];
      } else if i > n - 1 {
        assert head[i] == s[i - 1];
      }
    }
  }

  /** A match needs an upper-case letter directly after an upper-case letter
      or digit; a name without such a pair is left unchanged. */
  lemma {:induction false} SplitAcronymsIdentity(s: string)
    requires !HasAcronymPair(s)
    ensures SplitAcronyms(s) == s
  {
    if s != [] {
      var n := AcronymRun(s);
      AcronymRunFacts(s);
      assert 2 <= n <= |s| ==> !IsUpper(s[n - 1]) by {
        if 2 <= n <= |s| {
          assert IsUpperOrDigit(s[n - 2]);
        }
      }
      NoAcronymPairSuffix(s);
      SplitAcronymsIdentity(s[1..]);
    }
  }

  /** The camel rewrite keeps the first character, leaves no lower-case letter
      or digit directly before an upper-case letter, creates no `::`, and
      leaves a name without such a boundary unchanged. */
  lemma {:induction false} SplitCamelFacts(s: string)
    ensures |s| > 0 ==> |SplitCamel(s)| > 0 && SplitCamel(s)[0] == s[0]
    ensures !HasCamelBoundary(SplitCamel(s))
    ensures !HasColonPair(s) ==> !HasColonPair(SplitCamel(s))
    ensures !HasCamelBoundary(s) ==> SplitCamel(s) == s
  {
    if |s| >= 2 && IsLowerOrDigit(s[0]) && IsUpper(s[1]) {
      var rest := SplitCamel(s[2..]);
      SplitCamelFacts(s[2..]);
      NoCamelBoundaryConcat([s[0], '_', s[1]], rest);
      NoColonPairSuffix(s, 2);
      NoColonPairConcat([s[0], '_', s[1]], rest);
    } else if s != [] {
      var rest := SplitCamel(s[1..]);
      SplitCamelFacts(s[1..]);
      NoCamelBoundaryConcat([s[0]], rest);
      NoColonPairSuffix(s, 1);
      NoColonPairConcat([s[0]], rest);
      NoCamelBoundarySuffix(s);
    }
  }

  lemma ColonsToSlashIdentity(s: string)
    requires !HasColonPair(s)
    ensures ColonsToSlash(s) == s
  {
    ColonsToSlashFacts(s);
  }

  lemma SplitCamelIdentity(s: string)
    requires !HasCamelBoundary(s)
    ensures SplitCamel(s) == s
  {
    SplitCamelFacts(s);
  }

  /** The camel rewrite can be run piecewise wherever the cut does not fall
      inside a lower-to-upper boundary. */
  lemma {:induction false} SplitCamelConcat(a: string, b: string)
    requires a != [] && b != [] ==> !(IsLowerOrDigit(a[|a| - 1]) && IsUpper(b[0]))
    ensures SplitCamel(a + b) == SplitCamel(a) + SplitCamel(b)
  {
    if a == [] {
      assert a + b == b;
    } else if |a| >= 2 && IsLowerOrDigit(a[0]) && IsUpper(a[1]) {
      SplitCamelConcat(a[2..], b);
      SplitCamelConcatPair(a, b);
    } else {
      SplitCamelConcat(a[1..], b);
      SplitCamelConcatOne(a, b);
    }
  }

  /** The step of `SplitCamelConcat` when `a` opens with a boundary. */
  lemma {:induction false} SplitCamelConcatPair(a: string, b: string)
    requires |a| >= 2 && IsLowerOrDigit(a[0]) && IsUpper(a[1])
    requires SplitCamel(a[2..] + b) == SplitCamel(a[2..]) + SplitCamel(b)
    ensures SplitCamel(a + b) == SplitCamel(a) + SplitCamel(b)
  {
    var pair := [a[0], '_', a[1]];
    assert SplitCamel(a + b) == pair + SplitCamel(a[2..] + b) by {
      var ab := a + b;
      assert ab[0] == a[0] && ab[1] == a[1] && ab[2..] == a[2..] + b;
      SplitCamelPairStep(ab);
    }
    SplitCamelPairStep(a);
    SeqAssoc(pair, SplitCamel(a[2..]), SplitCamel(b));
  }

  /** The step of `SplitCamelConcat` when `a` opens with a single character. */
  lemma {:induction false} SplitCamelConcatOne(a: string, b: string)
    requires a != [] && !(|a| >= 2 && IsLowerOrDigit(a[0]) && IsUpper(a[1]))
    requires b != [] ==> !(IsLowerOrDigit(a[|a| - 1]) && IsUpper(b[0]))
    requires SplitCamel(a[1..] + b) == SplitCamel(a[1..]) + SplitCamel(b)
    ensures SplitCamel(a + b) == SplitCamel(a) + SplitCamel(b)
  {
    SplitCamelConsOne(a, b);
    SplitCamelOneStep(a);
    SeqAssoc([a[0]], SplitCamel(a[1..]), SplitCamel(b));
  }

  lemma {:induction false} SplitCamelConsOne(a: string, b: string)
    requires a != [] && !(|a| >= 2 && IsLowerOrDigit(a[0]) && IsUpper(a[1]))
    requires b != [] ==> !(IsLowerOrDigit(a[|a| - 1]) && IsUpper(b[0]))
    ensures SplitCamel(a + b) == [a[0]] + SplitCamel(a[1..] + b)
  {
    var ab := a + b;
    assert ab[0] == a[0];
    if |a| >= 2 {
      assert ab[1] == a[1];
    } else if b != [] {
      assert ab[1] == b[0] && a[|a| - 1] == a[0];
    }
    SplitCamelOneStep(ab);
    assert ab[1..] == a[1..] + b;
  }

  lemma SeqAssoc(x: string, y: string, z: string)
    ensures x + (y + z) == (x + y) + z
  {
  }

  lemma {:induction false} SplitCamelPairStep(s: string)
    requires |s| >= 2 && IsLowerOrDigit(s[0]) && IsUpper(s[1])
    ensures SplitCamel(s) == [s[0], '_', s[1]] + SplitCamel(s[2..])
  {
  }

  lemma {:induction false} SplitCamelOneStep(s: string)
    requires s != [] && !(|s| >= 2 && IsLowerOrDigit(s[0]) && IsUpper(s[1]))
    ensures SplitCamel(s) == [s[0]] + SplitCamel(s[1..])
  {
  }

  // ---------------------------------------------------------------------------
  // Helper lemmas on adjacency in suffixes and concatenations

  lemma NoColonPairSuffix(s: string, k: nat)
    requires k <= |s|
    ensures !HasColonPair(s) ==> !HasColonPair(s[k..])
  {
    if !HasColonPair(s) {
      forall i | 0 <= i < |s[k..]| - 1
        ensures !(s[k..][i] == ':' && s[k..][i + 1] == ':')
      {
        assert s[k..][i] == s[k + i] && s[k..][i + 1] == s[k + i + 1];
      }
    }
  }

  lemma NoAcronymPairSuffix(s: string)
    requires s != []
    ensures !HasAcronymPair(s) ==> !HasAcronymPair(s[1..])
  {
    if !HasAcronymPair(s) {
      forall i | 0 <= i < |s[1..]| - 1
        ensures !(IsUpperOrDigit(s[1..][i]) && IsUpper(s[1..][i + 1]))
      {
        assert s[1..][i] == s[i + 1] && s[1..][i + 1] == s[i + 2];
      }
    }
  }

  lemma NoCamelBoundarySuffix(s: string)
    requires s != []
    ensures !HasCamelBoundary(s) ==> !HasCamelBoundary(s[1..])
  {
    if !HasCamelBoundary(s) {
      forall i | 0 <= i < |s[1..]| - 1
        ensures !(IsLowerOrDigit(s[1..][i]) && IsUpper(s[1..][i + 1]))
      {
        assert s[1..][i] == s[i + 1] && s[1..][i + 1] == s[i + 2];
      }
    }
  }

  lemma NoColonPairConcat(a: string, b: string)
    requires !HasColonPair(a)
    ensures !HasColonPair(b) && (a != [] && b != [] ==> a[|a| - 1] != ':' || b[0] != ':')
            ==> !HasColonPair(a + b)
  {
    var ab := a + b;
    forall i | 0 <= i < |ab| - 1 && !HasColonPair(b) && (a != [] && b != [] ==> a[|a| - 1] != ':' || b[0] != ':')
      ensures !(ab[i] == ':' && ab[i + 1] == ':')
    {
      if i < |a| - 1 {
        assert ab[i] == a[i] && ab[i + 1] == a[i + 1];
      } else if i >= |a| {
        assert ab[i] == b[i - |a|] && ab[i + 1] == b[i + 1 - |a|];
      }
    }
  }

  lemma NoCamelBoundaryConcat(a: string, b: string)
    requires !HasCamelBoundary(a)
    requires a != [] && b != [] ==> !(IsLowerOrDigit(a[|a| - 1]) && IsUpper(b[0]))
    ensures !HasCamelBoundary(b) ==> !HasCamelBoundary(a + b)
  {
    var ab := a + b;
    forall i | 0 <= i < |ab| - 1 && !HasCamelBoundary(b)
      ensures !(IsLowerOrDigit(ab[i]) && IsUpper(ab[i + 1]))
    {
      if i < |a| - 1 {
        assert ab[i] == a[i] && ab[i + 1] == a[i + 1];
      } else if i >= |a| {
        assert ab[i] == b[i - |a|] && ab[i + 1] == b[i + 1 - |a|];
      }
    }
  }
}
