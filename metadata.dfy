/** The module-metadata record the form fills in, the names derived from its title, and the
    render-mode query that also resets the side-panel tab. */
module Metadata {
  import opened Strings
  import Form

  /** The side-panel tab descriptor. */
  class Tab {
    var icon: string
    var shouldShowDefault: bool
    var shouldShowOnLeftSide: bool

    predicate IsDefault()
      reads this
    {
      icon == "" && !shouldShowDefault && !shouldShowOnLeftSide
    }

    /** `NewTab`: no icon, hidden by default, on the right-hand side. */
    constructor ()
      ensures icon == "" && !shouldShowDefault && !shouldShowOnLeftSide
    {
      icon := "";
      shouldShowDefault := false;
      shouldShowOnLeftSide := false;
    }
  }

  class ModuleMetadata {
    var renderModes: seq<string>
    var moduleTitle: string
    var moduleDescription: string
    var tab: Tab?

    /** `NewModuleMetadata`: nothing chosen yet, and a default tab already present. */
    constructor ()
      ensures renderModes == [] && moduleTitle == "" && moduleDescription == ""
      ensures tab != null && fresh(tab) && tab.IsDefault()
    {
      renderModes := [];
      moduleTitle := "";
      moduleDescription := "";
      tab := new Tab();
    }

    /** `makeModuleTitleHumanReadable`: the title is replaced by its human-readable form;
        nothing else changes. */
    method MakeModuleTitleHumanReadable()
      modifies this`moduleTitle
      ensures moduleTitle == HumanReadable(old(moduleTitle))
    {
      moduleTitle := TitleCase(ReplaceChar(moduleTitle, '_', ' '));
    }

    /** `hasSidePanel`: whether the side-panel tag was selected (wherever it appears and
        however often), and, whatever the answer, the tab is replaced by a fresh default one. */
    method HasSidePanel() returns (found: bool)
      modifies this`tab
      ensures found <==> Form.SidePanel in renderModes
      ensures tab != null && fresh(tab) && tab.IsDefault()
    {
      found := false;
      for i := 0 to |renderModes|
        invariant found <==> Form.SidePanel in renderModes[..i]
      {
        if renderModes[i] == Form.SidePanel {
          found := true;
        }
      }
      assert renderModes[..|renderModes|] == renderModes;

      tab := new Tab();
    }
  }

  /** Underscores become spaces, then the title is title-cased: a character that starts the
      title or follows a space or an underscore is upper-cased, every other one lower-cased. */
  function HumanReadable(title: string): (r: string)
    ensures |r| == |title|
    ensures forall i :: 0 <= i < |title| ==>
      r[i] == if title[i] == '_' then ' '
              else if i == 0 || title[i - 1] == ' ' || title[i - 1] == '_' then Upper(title[i])
              else Lower(title[i])
    ensures '_' !in r
  {
    HumanReadableAt(title);
    TitleCase(ReplaceChar(title, '_', ' '))
  }

  lemma HumanReadableAt(title: string)
    ensures forall i :: 0 <= i < |title| ==>
      TitleCase(ReplaceChar(title, '_', ' '))[i] ==
        if title[i] == '_' then ' '
        else if i == 0 || title[i - 1] == ' ' || title[i - 1] == '_' then Upper(title[i])
        else Lower(title[i])
  {
    var s := ReplaceChar(title, '_', ' ');
    var r := TitleCase(s);
    forall i | 0 <= i < |title|
      ensures r[i] == if title[i] == '_' then ' '
                      else if i == 0 || title[i - 1] == ' ' || title[i - 1] == '_' then Upper(title[i])
                      else Lower(title[i])
    {
      LowerIdempotent(title[i]);
      if i > 0 {
        assert s[i - 1] == ' ' <==> title[i - 1] == ' ' || title[i - 1] == '_';
      }
    }
  }

  /** `getModuleNameKebabCase`: spaces become hyphens and every letter is lower-cased,
      position by position. */
  function KebabCase(title: string): (r: string)
    ensures |r| == |title|
    ensures forall i :: 0 <= i < |title| ==> r[i] == if title[i] == ' ' then '-' else Lower(title[i])
    ensures ' ' !in r
    ensures forall i :: 0 <= i < |r| ==> !IsUpper(r[i])
  {
    ToLower(ReplaceChar(title, ' ', '-'))
  }

  /** `getModuleElementNameKebabCase`, which spells the kebab-case expression out again
      rather than calling `getModuleNameKebabCase`. */
  function ElementKebabCase(title: string): (r: string)
    ensures r == KebabCase(title) + "-element"
  {
    ToLower(ReplaceChar(title, ' ', '-')) + "-element"
  }

  /** `getModulePackageName`. */
  function PackageName(title: string): (r: string)
    ensures |r| == |title| + 8
    ensures r[..8] == "bookera-" && r[8..] == KebabCase(title)
    ensures ' ' !in r
  {
    "bookera-" + KebabCase(title)
  }

  /** `getModuleNameClassName`: title-cased, spaces dropped, "Element" appended. */
  function ClassName(title: string): (r: string)
    ensures ' ' !in r
    ensures |r| == |title| - multiset(title)[' '] + 7
    ensures r[|r| - 7..] == "Element"
    ensures title != [] && title[0] != ' ' ==> r[0] == Upper(title[0])
  {
    var titled := TitleCase(title);
    SpaceCountPreserved(title, titled);
    RemoveCharCount(titled, ' ');
    RemoveChar(titled, ' ') + "Element"
  }

  /** `getModuleNameVariable` as written: the first character lower-cased and the spaces
      dropped, with no suffix.  When the title starts with a space, it is that space that is
      "lower-cased" and then dropped, so the next letter keeps its case.  A title of length
      zero makes Go's `[:1]` slice panic. */
  function VariableName(title: string): (r: string)
    requires title != []
    ensures ' ' !in r
    ensures |r| == |title| - multiset(title)[' ']
    ensures title[0] != ' ' ==> r != [] && r[0] == Lower(title[0])
    ensures title[0] == ' ' ==> r == RemoveChar(title[1..], ' ')
  {
    var lowered := [Lower(title[0])] + title[1..];
    SpaceCountPreserved(title, lowered);
    RemoveCharCount(lowered, ' ');
    RemoveCharCons(Lower(title[0]), title[1..], ' ');
    RemoveChar(lowered, ' ')
  }

  /** The variable name the generator is meant to produce: the camel-case name followed by
      "Element", the counterpart of `ClassName`. */
  function VariableElementName(title: string): (r: string)
    requires title != []
    ensures ' ' !in r
    ensures |r| == |title| - multiset(title)[' '] + 7
    ensures r[|r| - 7..] == "Element"
    ensures title[0] != ' ' ==> r != [] && r[0] == Lower(title[0])
  {
    VariableName(title) + "Element"
  }

  /** Two strings of equal length that agree on where the spaces are have as many spaces. */
  lemma {:induction false} SpaceCountPreserved(s: string, t: string)
    requires |s| == |t|
    requires forall i :: 0 <= i < |s| ==> (s[i] == ' ' <==> t[i] == ' ')
    ensures multiset(s)[' '] == multiset(t)[' ']
  {
    if s != [] {
      SpaceCountPreserved(s[1..], t[1..]);
      assert s == [s[0]] + s[1..];
      assert t == [t[0]] + t[1..];
    }
  }

  /** The kebab-case conversion is idempotent. */
  lemma KebabCaseIdempotent(title: string)
    ensures KebabCase(KebabCase(title)) == KebabCase(title)
  {
    var k := KebabCase(title);
    forall i | 0 <= i < |k| ensures KebabCase(k)[i] == k[i] {
      LowerIdempotent(title[i]);
    }
  }

  /** Making a title human-readable twice is the same as doing it once. */
  lemma HumanReadableIdempotent(title: string)
    ensures HumanReadable(HumanReadable(title)) == HumanReadable(title)
  {
    var h := HumanReadable(title);
    assert ReplaceChar(h, '_', ' ') == h;
    TitleCaseIdempotent(ReplaceChar(title, '_', ' '));
  }

  /** The class name starts with the title's first letter upper-cased, followed by the rest
      of the title-cased title without its spaces. */
  lemma ClassNameHead(title: string)
    requires title != [] && title[0] != ' '
    ensures ClassName(title) == [Upper(title[0])] + RemoveChar(TitleCase(title)[1..], ' ') + "Element"
  {
    var t := TitleCase(title);
    assert ClassName(title) == RemoveChar(t, ' ') + "Element";
    assert t[0] == Upper(title[0]) && t[0] != ' ';
    assert RemoveChar(t, ' ') == [t[0]] + RemoveChar(t[1..], ' ');
  }

  /** The intended variable name starts with the title's first letter lower-cased. */
  lemma VariableElementNameOf(title: string)
    requires title != [] && title[0] != ' '
    ensures VariableElementName(title) == [Lower(title[0])] + RemoveChar(title[1..], ' ') + "Element"
  {
    LowerIdempotent(title[0]);
    RemoveCharCons(Lower(title[0]), title[1..], ' ');
  }

  /** Capitalising a word whose first letter was lower-cased upper-cases that letter. */
  lemma CapitaliseLowered(c: char, t: string, suffix: string)
    ensures Capitalise([Lower(c)] + t + suffix) == [Upper(c)] + t + suffix
  {
    LowerIdempotent(c);
    assert ([Lower(c)] + t + suffix)[1..] == t + suffix;
  }

  /** Capitalising changes nothing when the first character is already in upper-case form. */
  lemma CapitaliseFixed(w: string, suffix: string)
    requires w != [] ==> Upper(w[0]) == w[0]
    requires suffix != [] && Upper(suffix[0]) == suffix[0]
    ensures Capitalise(w + suffix) == w + suffix
  {
    var v := w + suffix;
    assert v[0] == if w != [] then w[0] else suffix[0];
    assert v == [v[0]] + v[1..];
  }

  /** Every character that starts a word is in upper-case form. */
  predicate UpperAtWordStarts(s: string)
  {
    forall i :: 0 <= i < |s| && WordStart(s, i, true) ==> Upper(s[i]) == s[i]
  }

  lemma TitleCaseUpperAtWordStarts(s: string)
    ensures UpperAtWordStarts(TitleCase(s))
  {
    var t := TitleCase(s);
    forall i | 0 <= i < |t| && WordStart(t, i, true) ensures Upper(t[i]) == t[i] {
      LowerIdempotent(s[i]);
      if i > 0 {
        assert s[i - 1] == ' ';
      }
    }
  }

  /** Without its spaces, a string whose words start in upper case starts in upper case. */
  lemma {:induction false} RemoveSpacesStartsUpper(s: string)
    requires UpperAtWordStarts(s)
    ensures RemoveChar(s, ' ') != [] ==> Upper(RemoveChar(s, ' ')[0]) == RemoveChar(s, ' ')[0]
  {
    if s != [] {
      if s[0] == ' ' {
        var t := s[1..];
        forall i | 0 <= i < |t| && WordStart(t, i, true) ensures Upper(t[i]) == t[i] {
          assert t[i] == s[i + 1] && WordStart(s, i + 1, true);
        }
        RemoveSpacesStartsUpper(t);
      } else {
        assert WordStart(s, 0, true);
      }
    }
  }

  /** A title-cased title that starts with a space: the leading spaces vanish from both names,
      and the first letter kept is already in upper case. */
  lemma ClassNameOfSpaceLed(title: string)
    requires title != [] && title[0] == ' '
    requires TitleCase(title) == title
    ensures ClassName(title) == Capitalise(VariableElementName(title))
  {
    var w := RemoveChar(title[1..], ' ');
    assert ClassName(title) == w + "Element" by {
      assert ClassName(title) == RemoveChar(TitleCase(title), ' ') + "Element";
      assert RemoveChar(title, ' ') == w;
    }
    assert VariableElementName(title) == w + "Element" by {
      LowerIdempotent(' ');
      RemoveCharCons(' ', title[1..], ' ');
    }
    TitleCaseUpperAtWordStarts(title);
    RemoveSpacesStartsUpper(title);
    CapitaliseFixed(w, "Element");
  }

  /** For a title-cased title, the class name and the intended variable name differ only in
      the case of their first letter. */
  lemma ClassNameCapitalisesVariableName(title: string)
    requires title != []
    requires TitleCase(title) == title
    ensures ClassName(title) == Capitalise(VariableElementName(title))
  {
    if title[0] == ' ' {
      ClassNameOfSpaceLed(title);
    } else {
      ClassNameHead(title);
      assert TitleCase(title)[1..] == title[1..];
      VariableElementNameOf(title);
      CapitaliseLowered(title[0], RemoveChar(title[1..], ' '), "Element");
    }
  }

  /** On the path the program takes (the title made human-readable first), the derived class
      and variable names agree, whatever non-empty raw title the form accepted. */
  lemma DerivedNamesAgree(raw: string)
    requires raw != []
    ensures ClassName(HumanReadable(raw)) == Capitalise(VariableElementName(HumanReadable(raw)))
  {
    var h := HumanReadable(raw);
    HumanReadableIdempotent(raw);
    assert TitleCase(h) == h;
    ClassNameCapitalisesVariableName(h);
  }

  /** A title the form accepts yields a kebab-case name made only of lower-case letters and
      hyphens, and a package name of at most 33 characters. */
  lemma AcceptedTitleNames(raw: string)
    requires Form.TitleAcceptable(raw)
    ensures forall c :: c in KebabCase(HumanReadable(raw)) ==> IsLower(c) || c == '-'
    ensures |PackageName(HumanReadable(raw))| <= 33
  {
    var h := HumanReadable(raw);
    assert ReplaceChar(raw, '_', ' ') == raw;
    forall i | 0 <= i < |h| ensures IsLetter(h[i]) || h[i] == ' ' {
      assert Form.IsTitleChar(raw[i]);
    }
  }

  /** A title of two space-free words is put in kebab case word by word, the space
      becoming a hyphen. */
  lemma KebabCaseTwoWords(a: string, b: string)
    requires ' ' !in a && ' ' !in b
    ensures KebabCase(a + [' '] + b) == KebabCase(a) + ['-'] + KebabCase(b)
  {
    ReplaceCharJoinsWords(a, b, ' ', '-');
    ToLowerConcat(a + ['-'], b);
    ToLowerConcat(a, ['-']);
    assert ToLower(['-']) == ['-'];
  }

  // The words and spellings of the worked example, a few literal facts each.  They are
  // lemmas of their own because the same facts stated inline in the example proofs cost the
  // solver far more than the proofs themselves.

  lemma ExampleWords()
    ensures TitleCase("module") == "Module" && TitleCase("title") == "Title"
    ensures TitleCase("Module") == "Module" && TitleCase("Title") == "Title"
  {
  }

  /** A capitalised word puts only its first letter in lower case. */
  lemma KebabCapitalisedWord(c: char, t: string)
    requires c != ' '
    requires forall i :: 0 <= i < |t| ==> IsLower(t[i])
    ensures KebabCase([c] + t) == [Lower(c)] + t
  {
    var w, k := [c] + t, KebabCase([c] + t);
    forall i | 0 <= i < |w| ensures k[i] == ([Lower(c)] + t)[i] {
      if i > 0 {
        assert w[i] == t[i - 1];
      }
    }
  }

  lemma ExampleKebabModule()
    ensures KebabCase("Module") == "module"
  {
    assert "Module" == ['M'] + "odule" && "module" == ['m'] + "odule";
    KebabCapitalisedWord('M', "odule");
  }

  lemma ExampleKebabTitle()
    ensures KebabCase("Title") == "title"
  {
    assert "Title" == ['T'] + "itle" && "title" == ['t'] + "itle";
    KebabCapitalisedWord('T', "itle");
  }

  lemma SnakeSpelling()
    ensures "module" + ['_'] + "title" == "module_title"
    ensures "module" + [' '] + "title" == "module title"
  {
  }

  lemma SpacedSpelling()
    ensures "Module" + [' '] + "Title" == "Module Title"
  {
  }

  lemma JoinedSpelling()
    ensures "Module" + "Title" == "ModuleTitle"
    ensures "module" + "Title" == "moduleTitle"
  {
  }

  lemma LoweredSpelling()
    ensures "module" + [' '] + "Title" == "module Title"
    ensures [Lower('M')] + "Module Title"[1..] == "module Title"
  {
  }

  lemma HyphenSpelling()
    ensures "module" + ['-'] + "title" == "module-title"
  {
  }

  lemma SuffixedExample()
    ensures "module-title" + "-element" == "module-title-element"
    ensures "bookera-" + "module-title" == "bookera-module-title"
    ensures "ModuleTitle" + "Element" == "ModuleTitleElement"
    ensures "moduleTitle" + "Element" == "moduleTitleElement"
  {
  }

  lemma SnakeReplaced()
    ensures ReplaceChar("module_title", '_', ' ') == "module title"
  {
    SnakeSpelling();
    ReplaceCharJoinsWords("module", "title", '_', ' ');
  }

  lemma SpacedTitled()
    ensures TitleCase("module title") == "Module Title"
  {
    SnakeSpelling();
    SpacedSpelling();
    TitleCaseTwoWords("module", "title");
    ExampleWords();
  }

  /** The worked example: the raw title "module_title" made human-readable. */
  lemma HumanReadableExample()
    ensures HumanReadable("module_title") == "Module Title"
  {
    SnakeReplaced();
    SpacedTitled();
  }

  /** The worked example: the kebab-case names derived from "Module Title". */
  lemma KebabNamesExample()
    ensures KebabCase("Module Title") == "module-title"
    ensures ElementKebabCase("Module Title") == "module-title-element"
  {
    SpacedSpelling();
    HyphenSpelling();
    KebabCaseTwoWords("Module", "Title");
    ExampleKebabModule();
    ExampleKebabTitle();
    SuffixedExample();
  }

  /** The worked example: the package name derived from "Module Title". */
  lemma PackageNameExample()
    ensures PackageName("Module Title") == "bookera-module-title"
  {
    KebabNamesExample();
    SuffixedExample();
  }

  /** "Module Title" with its spaces dropped, and with its first letter lowered as well. */
  lemma WithoutSpacesExample()
    ensures RemoveChar("Module Title", ' ') == "ModuleTitle"
    ensures RemoveChar("module Title", ' ') == "moduleTitle"
  {
    SpacedSpelling();
    LoweredSpelling();
    JoinedSpelling();
    RemoveCharJoinsWords("Module", "Title", ' ');
    RemoveCharJoinsWords("module", "Title", ' ');
  }

  /** The worked example: the class name and the intended variable name for "Module Title". */
  lemma IdentifierNamesExample()
    ensures ClassName("Module Title") == "ModuleTitleElement"
    ensures VariableElementName("Module Title") == "moduleTitleElement"
  {
    SpacedSpelling();
    LoweredSpelling();
    TitleCaseTwoWords("Module", "Title");
    ExampleWords();
    WithoutSpacesExample();
    SuffixedExample();
  }

  /** As written, the variable name for "Module Title" is "moduleTitle", not the
      "moduleTitleElement" that the generator's own test expects. */
  lemma VariableNameMissesSuffix()
    ensures VariableName("Module Title") == "moduleTitle"
    ensures VariableName("Module Title") != "moduleTitleElement"
  {
    LoweredSpelling();
    WithoutSpacesExample();
  }
}
