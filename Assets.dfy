/** The transformation step of the `all_infras` asset: the `split_camel_case` label
    function, the namespace-to-source-system `CASE` table and the `SELECT` that numbers
    the raw bindings with `row_number()` and renames their columns. */
module Assets {
  import opened Wrappers
  import opened Text

  // ---------------------------------------------------------------------------
  // split_camel_case
  // ---------------------------------------------------------------------------

  /** `value.split("#")[-1]`: the part after the last '#', or all of `s` if it has none. */
  function AfterLastHash(s: string): (r: string)
    ensures '#' !in r
    ensures |r| <= |s| && r == s[|s| - |r|..]
    ensures |r| < |s| ==> s[|s| - |r| - 1] == '#'
  {
    if s == [] then []
    else if s[|s| - 1] == '#' then []
    else
      var init := s[..|s| - 1];
      var r := AfterLastHash(init) + [s[|s| - 1]];
      assert init[|init| - |r| + 1..] + [s[|s| - 1]] == s[|s| - |r|..];
      r
  }

  /** Whatever precedes the last '#' has no bearing on the fragment. */
  lemma LastFragment(p: string, f: string)
    requires '#' !in f
    ensures AfterLastHash(p + "#" + f) == f
  {
    var s := p + "#" + f;
    var r := AfterLastHash(s);
    assert s[|p|] == '#';
    assert s[|s| - |f|..] == f;
  }

  /** The number of ASCII capitals in `s`. */
  function CountUpper(s: string): nat
  {
    if s == [] then 0 else (if IsUpper(s[0]) then 1 else 0) + CountUpper(s[1..])
  }

  /** A space before every ASCII capital of `s`; the result never starts with a capital. */
  function SpaceEachCapital(s: string): (r: string)
    ensures |r| == |s| + CountUpper(s)
    ensures r == [] || !IsUpper(r[0])
  {
    if s == [] then []
    else (if IsUpper(s[0]) then [' ', s[0]] else [s[0]]) + SpaceEachCapital(s[1..])
  }

  /** `re.sub(r'(?<!^)([A-Z])', r' \1', value)`: one space before every ASCII capital
      except a capital at index 0, which the look-behind `(?<!^)` excludes. */
  function SpaceCapitals(s: string): (r: string)
    ensures |r| == |s| + (if s == [] then 0 else CountUpper(s[1..]))
    ensures s != [] ==> r[0] == s[0]
  {
    if s == [] then [] else [s[0]] + SpaceEachCapital(s[1..])
  }

  /** Drops each space that stands right before an ASCII capital: the inverse of the
      spacing step, used to state that it adds nothing but those spaces. */
  function UnspaceCapitals(s: string): string
  {
    if s == [] then []
    else if |s| >= 2 && s[0] == ' ' && IsUpper(s[1]) then [s[1]] + UnspaceCapitals(s[2..])
    else [s[0]] + UnspaceCapitals(s[1..])
  }

  lemma {:induction false} UnspaceEachCapital(s: string)
    ensures UnspaceCapitals(SpaceEachCapital(s)) == s
  {
    if s != [] {
      var rest := SpaceEachCapital(s[1..]);
      UnspaceEachCapital(s[1..]);
      if IsUpper(s[0]) {
        assert ([' ', s[0]] + rest)[2..] == rest;
      } else {
        assert ([s[0]] + rest)[1..] == rest;
      }
    }
  }

  /** The spacing step inserts spaces and nothing else: removing the spaces before the
      capitals gives the fragment back. */
  lemma SpacingRoundTrip(s: string)
    ensures UnspaceCapitals(SpaceCapitals(s)) == s
  {
    if s != [] {
      var rest := SpaceEachCapital(s[1..]);
      UnspaceEachCapital(s[1..]);
      assert ([s[0]] + rest)[1..] == rest;
    }
  }

  /** Per-word capitalisation from a given word state: a character is upper-cased when it
      starts a word, i.e. it is first and `wordStart` holds, or it follows a space. */
  function TitleFrom(s: string, wordStart: bool): (r: string)
    ensures |r| == |s|
    ensures forall i :: 0 <= i < |s| ==>
      r[i] == if (if i == 0 then wordStart else s[i - 1] == ' ') then ToUpper(s[i]) else s[i]
  {
    if s == [] then []
    else [if wordStart then ToUpper(s[0]) else s[0]] + TitleFrom(s[1..], s[0] == ' ')
  }

  /** `titlecase(value)`, taken as capitalising the first letter of every word. */
  function TitleCase(s: string): (r: string)
    ensures |r| == |s|
    ensures forall i :: 0 <= i < |s| ==>
      r[i] == if i == 0 || s[i - 1] == ' ' then ToUpper(s[i]) else s[i]
  {
    TitleFrom(s, true)
  }

  /** The label built from a '#'-free fragment: spaced, lower-cased, title-cased. */
  function Label(fragment: string): (title: string)
    ensures |title| == |SpaceCapitals(fragment)|
    ensures forall i :: 0 <= i < |title| ==>
      title[i] == if i == 0 || SpaceCapitals(fragment)[i - 1] == ' ' then ToUpper(ToLower(SpaceCapitals(fragment)[i]))
                  else ToLower(SpaceCapitals(fragment)[i])
  {
    var spaced := SpaceCapitals(fragment);
    assert forall i :: 0 <= i < |spaced| ==> (Lower(spaced)[i] == ' ' <==> spaced[i] == ' ');
    TitleCase(Lower(spaced))
  }

  /** Title-casing a lower-cased string changes letter case only. */
  lemma TitleCaseOfLower(s: string)
    ensures Lower(TitleCase(Lower(s))) == Lower(s)
  {
    var ls := Lower(s);
    var t := TitleCase(ls);
    forall i | 0 <= i < |s|
      ensures Lower(t)[i] == ls[i]
    {
      assert |ls| == |s| == |t|;
      assert t[i] == if i == 0 || ls[i - 1] == ' ' then ToUpper(ls[i]) else ls[i];
      assert ToLower(ToUpper(ls[i])) == ls[i] == ToLower(ls[i]);
    }
  }

  /** `split_camel_case(value)`: a missing or empty value, or one without '#', comes back
      unchanged; otherwise the label of the fragment after the last '#'. */
  function SplitCamelCase(value: Option<string>): (r: Option<string>)
    ensures r.None? <==> value.None?
    ensures value.Some? && '#' !in value.value ==> r == value
    ensures value.Some? && '#' in value.value ==>
      r.Some? && Lower(r.value) == Lower(SpaceCapitals(AfterLastHash(value.value)))
  {
    if value.Some? && value.value != "" && '#' in value.value then
      var spaced := SpaceCapitals(AfterLastHash(value.value));
      TitleCaseOfLower(spaced);
      Some(TitleCase(Lower(spaced)))
    else value
  }

  /** Only the fragment after the last '#' contributes to the label, whatever precedes it. */
  lemma LabelOfLastFragment(prefix: string, fragment: string)
    requires '#' !in fragment
    ensures SplitCamelCase(Some(prefix + "#" + fragment)) == Some(Label(fragment))
  {
    assert (prefix + "#" + fragment)[|prefix|] == '#';
    LastFragment(prefix, fragment);
  }

  /** The label has the spaced fragment's length, equals it up to letter case, and
      starts every word with a capital. */
  lemma LabelShape(fragment: string)
    ensures |Label(fragment)| == |SpaceCapitals(fragment)|
    ensures Lower(Label(fragment)) == Lower(SpaceCapitals(fragment))
    ensures forall i :: 0 <= i < |Label(fragment)| && (i == 0 || SpaceCapitals(fragment)[i - 1] == ' ') ==>
      Label(fragment)[i] == ToUpper(ToLower(SpaceCapitals(fragment)[i]))
    ensures forall i :: 0 < i < |Label(fragment)| && SpaceCapitals(fragment)[i - 1] != ' ' ==>
      Label(fragment)[i] == ToLower(SpaceCapitals(fragment)[i])
  {
    var spaced := SpaceCapitals(fragment);
    TitleCaseOfLower(spaced);
    assert forall i :: 0 <= i < |spaced| ==> (Lower(spaced)[i] == ' ' <==> spaced[i] == ' ');
  }

  lemma {:induction false} SpaceEachCapitalAppend(a: string, b: string)
    ensures SpaceEachCapital(a + b) == SpaceEachCapital(a) + SpaceEachCapital(b)
  {
    if a == [] {
      assert a + b == b;
    } else {
      assert (a + b)[1..] == a[1..] + b;
      SpaceEachCapitalAppend(a[1..], b);
    }
  }

  lemma {:induction false} SpaceEachCapitalPlain(s: string)
    requires forall i :: 0 <= i < |s| ==> !IsUpper(s[i])
    ensures SpaceEachCapital(s) == s
  {
    if s != [] {
      SpaceEachCapitalPlain(s[1..]);
    }
  }

  lemma LowerAppend(a: string, b: string)
    ensures Lower(a + b) == Lower(a) + Lower(b)
  {
  }

  lemma LowerPlain(s: string)
    requires forall i :: 0 <= i < |s| ==> !IsUpper(s[i])
    ensures Lower(s) == s
  {
  }

  lemma {:induction false} TitleFromAppend(a: string, b: string, wordStart: bool)
    requires a != []
    ensures TitleFrom(a + b, wordStart) == TitleFrom(a, wordStart) + TitleFrom(b, a[|a| - 1] == ' ')
  {
    assert (a + b)[0] == a[0];
    assert (a + b)[1..] == a[1..] + b;
    if |a| > 1 {
      TitleFromAppend(a[1..], b, a[0] == ' ');
    }
  }

  /** A word, possibly followed by one space, keeps its case when it does not start a word. */
  lemma {:induction false} TitleFromInside(s: string)
    requires forall i :: 0 <= i < |s| - 1 ==> s[i] != ' '
    ensures TitleFrom(s, false) == s
  {
    var r := TitleFrom(s, false);
    forall i | 0 <= i < |s|
      ensures r[i] == s[i]
    {
      if i > 0 {
        assert s[i - 1] != ' ';
      }
    }
  }

  /** A lower-case ASCII word, the unit a camel-cased type name is made of. */
  predicate IsWord(w: string)
  {
    |w| > 0 && forall i :: 0 <= i < |w| ==> IsLower(w[i])
  }

  predicate AllWords(ws: seq<string>)
  {
    forall i :: 0 <= i < |ws| ==> IsWord(ws[i])
  }

  function Capitalise(w: string): string
    requires |w| > 0
  {
    [ToUpper(w[0])] + w[1..]
  }

  /** The words glued on after the first one of a camel-cased name, each capitalised. */
  function Humps(ws: seq<string>): string
    requires AllWords(ws)
  {
    if ws == [] then "" else Capitalise(ws[0]) + Humps(ws[1..])
  }

  /** The camel-cased name of a non-empty list of words, as in `jeugdverblijfOfJeugdhostel`. */
  function CamelCase(ws: seq<string>): string
    requires |ws| > 0 && AllWords(ws)
  {
    ws[0] + Humps(ws[1..])
  }

  /** Each word capitalised, as title-casing shows it. */
  function CapitalisedWords(ws: seq<string>): (r: seq<string>)
    requires AllWords(ws)
  {
    seq(|ws|, i requires 0 <= i < |ws| => Capitalise(ws[i]))
  }

  /** The words, each preceded by one space. */
  function SpacePrefixed(ws: seq<string>): string
  {
    if ws == [] then "" else " " + ws[0] + SpacePrefixed(ws[1..])
  }

  lemma {:induction false} JoinBySpaces(ws: seq<string>)
    requires |ws| > 0
    ensures Join(ws, " ") == ws[0] + SpacePrefixed(ws[1..])
  {
    if |ws| > 1 {
      JoinBySpaces(ws[1..]);
      assert ws[1..][1..] == ws[2..];
    }
  }

  lemma SpacedCapitalised(w: string)
    requires IsWord(w)
    ensures SpaceEachCapital(Capitalise(w)) == " " + Capitalise(w)
  {
    var c := Capitalise(w);
    SpaceEachCapitalPlain(w[1..]);
    assert c[1..] == w[1..];
    assert IsUpper(c[0]);
  }

  lemma {:induction false} SpacedHumps(ws: seq<string>)
    requires AllWords(ws)
    ensures SpaceEachCapital(Humps(ws)) == SpacePrefixed(CapitalisedWords(ws))
  {
    if ws != [] {
      var c := Capitalise(ws[0]);
      var caps := CapitalisedWords(ws);
      SpacedHumps(ws[1..]);
      SpaceEachCapitalAppend(c, Humps(ws[1..]));
      SpacedCapitalised(ws[0]);
      assert caps[0] == c && caps[1..] == CapitalisedWords(ws[1..]);
    }
  }

  lemma {:induction false} LoweredHumps(ws: seq<string>)
    requires AllWords(ws)
    ensures Lower(SpacePrefixed(CapitalisedWords(ws))) == SpacePrefixed(ws)
  {
    if ws != [] {
      var w := ws[0];
      var caps := CapitalisedWords(ws);
      LoweredHumps(ws[1..]);
      assert caps[1..] == CapitalisedWords(ws[1..]);
      LowerAppend(" " + caps[0], SpacePrefixed(caps[1..]));
      LowerAppend(" ", caps[0]);
      LowerCapitalised(w);
      assert Lower(" ") == " ";
    }
  }

  lemma LowerCapitalised(w: string)
    requires IsWord(w)
    ensures Lower(Capitalise(w)) == w
  {
    var c := Capitalise(w);
    assert forall i :: 0 <= i < |w| ==> Lower(c)[i] == w[i];
  }

  lemma {:induction false} TitledHumps(ws: seq<string>)
    requires AllWords(ws)
    ensures TitleFrom(SpacePrefixed(ws), false) == SpacePrefixed(CapitalisedWords(ws))
  {
    if ws != [] {
      var w, rest := ws[0], ws[1..];
      assert IsWord(w);
      assert TitleFrom(" " + w, false) == " " + Capitalise(w) by {
        TitleFromAppend(" ", w, false);
        TitleFromAppend([w[0]], w[1..], true);
        assert [w[0]] + w[1..] == w;
        TitleFromInside(w[1..]);
      }
      assert TitleFrom(SpacePrefixed(ws), false)
          == (" " + Capitalise(w)) + TitleFrom(SpacePrefixed(rest), false) by {
        assert (" " + w)[|" " + w| - 1] == w[|w| - 1] != ' ';
        TitleFromAppend(" " + w, SpacePrefixed(rest), false);
      }
      TitledHumps(rest);
      assert SpacePrefixed(CapitalisedWords(ws))
          == (" " + Capitalise(w)) + SpacePrefixed(CapitalisedWords(rest)) by {
        var caps := CapitalisedWords(ws);
        assert caps[0] == Capitalise(w) && caps[1..] == CapitalisedWords(rest);
      }
    }
  }

  lemma CamelSpaced(ws: seq<string>)
    requires |ws| > 0 && AllWords(ws)
    ensures SpaceCapitals(CamelCase(ws)) == ws[0] + SpacePrefixed(CapitalisedWords(ws[1..]))
  {
    var w, rest := ws[0], ws[1..];
    var f := w + Humps(rest);
    assert f[0] == w[0] && f[1..] == w[1..] + Humps(rest);
    SpaceEachCapitalAppend(w[1..], Humps(rest));
    SpaceEachCapitalPlain(w[1..]);
    SpacedHumps(rest);
    assert SpaceCapitals(f) == [w[0]] + (w[1..] + SpacePrefixed(CapitalisedWords(rest)));
    assert [w[0]] + w[1..] == w;
  }

  lemma CamelLowered(ws: seq<string>)
    requires |ws| > 0 && AllWords(ws)
    ensures Lower(ws[0] + SpacePrefixed(CapitalisedWords(ws[1..]))) == ws[0] + SpacePrefixed(ws[1..])
  {
    LowerAppend(ws[0], SpacePrefixed(CapitalisedWords(ws[1..])));
    LoweredHumps(ws[1..]);
  }

  lemma CamelTitled(ws: seq<string>)
    requires |ws| > 0 && AllWords(ws)
    ensures TitleCase(ws[0] + SpacePrefixed(ws[1..])) == Join(CapitalisedWords(ws), " ")
  {
    var w, rest := ws[0], ws[1..];
    var caps := CapitalisedWords(ws);
    assert caps[1..] == CapitalisedWords(rest);
    JoinBySpaces(caps);
    TitleFromAppend(w, SpacePrefixed(rest), true);
    TitleFromAppend([w[0]], w[1..], true);
    assert [w[0]] + w[1..] == w;
    TitleFromInside(w[1..]);
    TitledHumps(rest);
  }

  /** A camel-cased name of lower-case words gets the label of those words, each
      capitalised and separated by one space. */
  lemma CamelCaseLabel(ws: seq<string>)
    requires |ws| > 0 && AllWords(ws)
    ensures Label(CamelCase(ws)) == Join(CapitalisedWords(ws), " ")
  {
    CamelSpaced(ws);
    CamelLowered(ws);
    CamelTitled(ws);
  }

  /** Three parts joined by a separator. */
  lemma JoinThree(x: string, y: string, z: string, sep: string)
    ensures Join([x, y, z], sep) == x + sep + (y + sep + z)
  {
    var parts := [x, y, z];
    assert parts[1..] == [y, z] && parts[1..][1..] == [z];
    assert Join([y, z], sep) == y + sep + Join([z], sep);
  }

  /** A three-word name, camel-cased and as capitalised words. */
  lemma ThreeWords(a: string, b: string, c: string)
    requires IsWord(a) && IsWord(b) && IsWord(c)
    ensures AllWords([a, b, c])
    ensures CamelCase([a, b, c]) == a + (Capitalise(b) + Capitalise(c))
    ensures Join(CapitalisedWords([a, b, c]), " ") == Capitalise(a) + " " + (Capitalise(b) + " " + Capitalise(c))
  {
    var ws := [a, b, c];
    assert AllWords(ws) && CamelCase(ws) == a + (Capitalise(b) + Capitalise(c)) by {
      assert ws[1..] == [b, c] && ws[1..][1..] == [c];
      assert Humps([c]) == Capitalise(c) + Humps([]);
    }
    assert CapitalisedWords(ws) == [Capitalise(a), Capitalise(b), Capitalise(c)] by {
      assert ws[1..] == [b, c] && ws[1..][1..] == [c];
    }
    JoinThree(Capitalise(a), Capitalise(b), Capitalise(c), " ");
  }

  lemma ExampleWords()
    ensures IsWord("jeugdverblijf") && IsWord("of") && IsWord("jeugdhostel")
    ensures Capitalise("jeugdverblijf") == "Jeugdverblijf"
    ensures Capitalise("of") == "Of"
    ensures Capitalise("jeugdhostel") == "Jeugdhostel"
  {
    assert ToUpper('j') == 'J' && ToUpper('o') == 'O';
    assert "jeugdverblijf"[1..] == "eugdverblijf";
    assert "of"[1..] == "f";
    assert "jeugdhostel"[1..] == "eugdhostel";
  }

  lemma JeugdverblijfWords(ws: seq<string>)
    requires ws == ["jeugdverblijf", "of", "jeugdhostel"]
    ensures AllWords(ws)
    ensures CamelCase(ws) == "jeugdverblijfOfJeugdhostel"
    ensures Join(CapitalisedWords(ws), " ") == "Jeugdverblijf Of Jeugdhostel"
  {
    ExampleWords();
    ThreeWords("jeugdverblijf", "of", "jeugdhostel");
  }

  lemma NoHashInExample()
    ensures '#' !in "jeugdverblijfOfJeugdhostel"
  {
  }

  /** A sample type URI: any URI ending in `#jeugdverblijfOfJeugdhostel`
      is labelled `Jeugdverblijf Of Jeugdhostel`, whatever precedes the '#'. */
  lemma JeugdverblijfLabel(prefix: string, fragment: string)
    requires fragment == "jeugdverblijfOfJeugdhostel"
    ensures SplitCamelCase(Some(prefix + "#" + fragment)) == Some("Jeugdverblijf Of Jeugdhostel")
  {
    assert Label(fragment) == "Jeugdverblijf Of Jeugdhostel" by {
      var ws := ["jeugdverblijf", "of", "jeugdhostel"];
      JeugdverblijfWords(ws);
      CamelCaseLabel(ws);
    }
    assert '#' !in fragment by { NoHashInExample(); }
    LabelOfLastFragment(prefix, fragment);
  }

  // ---------------------------------------------------------------------------
  // source_system: the CASE on namespace
  // ---------------------------------------------------------------------------

  /** The `WHEN namespace = ... THEN ...` branches of the `CASE`, in their order. */
  const SourceSystems: seq<(string, string)> := [
    ("https://kampas.be/id/gebouw/", "Kampas"),
    ("https://erfgoedkaart.be/id/infrastructuur/", "Erfgoedkaart"),
    ("https://data.publiq.be/id/place/udb/", "UiTdatabank"),
    ("https://terra.be/id/infrastructuur/", "Terra"),
    ("https://www.jeugdmaps.be/id/buitenruimte/", "Jeugdmaps"),
    ("https://natuurenbos.vlaanderen.be/id/buitenruimte/", "Natuur en bos"),
    ("https://www.jeugdmaps.be/id/gebouw/", "Jeugdmaps")
  ]

  /** A searched `CASE`: the result of the first branch whose key equals `key`, or
      `NULL` (the `ELSE NULL`) when no branch does. */
  function FirstMatch(branches: seq<(string, string)>, key: string): (r: Option<string>)
    ensures r.None? <==> forall i :: 0 <= i < |branches| ==> branches[i].0 != key
    ensures r.Some? ==> exists i :: 0 <= i < |branches| && branches[i] == (key, r.value)
  {
    if branches == [] then None
    else if branches[0].0 == key then Some(branches[0].1)
    else
      var r := FirstMatch(branches[1..], key);
      assert forall i :: 1 <= i < |branches| ==> branches[i] == branches[1..][i - 1];
      r
  }

  /** The first matching branch wins: the result is that of the earliest branch whose
      key equals, and of no later one. */
  lemma {:induction false} FirstMatchIsEarliest(branches: seq<(string, string)>, key: string, i: nat)
    requires i < |branches| && branches[i].0 == key
    requires forall j :: 0 <= j < i ==> branches[j].0 != key
    ensures FirstMatch(branches, key) == Some(branches[i].1)
  {
    if i > 0 {
      FirstMatchIsEarliest(branches[1..], key, i - 1);
    }
  }

  /** `source_system`: a `NULL` namespace compares as unknown and falls to `ELSE NULL`. */
  function SourceSystem(namespace: Option<string>): (r: Option<string>)
    ensures namespace.None? ==> r.None?
    ensures r.None? <==> namespace.None? || forall i :: 0 <= i < |SourceSystems| ==> SourceSystems[i].0 != namespace.value
    ensures r.Some? ==> (namespace.value, r.value) in SourceSystems
  {
    match namespace
    case None => None
    case Some(ns) => FirstMatch(SourceSystems, ns)
  }

  /** No namespace can satisfy two branches: the keys of the table are pairwise distinct. */
  lemma SourceSystemKeysDistinct()
    ensures forall i, j :: 0 <= i < j < |SourceSystems| ==> SourceSystems[i].0 != SourceSystems[j].0
  {
    var keys := seq(|SourceSystems|, i requires 0 <= i < |SourceSystems| => SourceSystems[i].0);
    assert |keys[0]| == 28 && |keys[1]| == 42 && |keys[2]| == 36 && |keys[3]| == 35;
    assert |keys[4]| == 41 && |keys[5]| == 50 && |keys[6]| == 35;
    assert keys[3][8] == 't' && keys[6][8] == 'w';
  }

  /** Because the keys are distinct, the ordered `CASE` is an exact lookup: a namespace
      gets a name exactly when the table lists that pair. */
  lemma SourceSystemExact(namespace: string, name: string)
    ensures SourceSystem(Some(namespace)) == Some(name) <==> (namespace, name) in SourceSystems
  {
    if (namespace, name) in SourceSystems {
      var i :| 0 <= i < |SourceSystems| && SourceSystems[i] == (namespace, name);
      SourceSystemKeysDistinct();
      FirstMatchIsEarliest(SourceSystems, namespace, i);
    }
  }

  /** Both jeugdmaps namespaces map to `Jeugdmaps`; Kampas buildings map to `Kampas`; a
      missing namespace maps to `NULL`. */
  lemma SourceSystemExamples()
    ensures SourceSystem(Some("https://www.jeugdmaps.be/id/buitenruimte/")) == Some("Jeugdmaps")
    ensures SourceSystem(Some("https://www.jeugdmaps.be/id/gebouw/")) == Some("Jeugdmaps")
    ensures SourceSystem(Some("https://kampas.be/id/gebouw/")) == Some("Kampas")
    ensures SourceSystem(None) == None
  {
    SourceSystemExact("https://www.jeugdmaps.be/id/buitenruimte/", "Jeugdmaps");
    SourceSystemExact("https://www.jeugdmaps.be/id/gebouw/", "Jeugdmaps");
    SourceSystemExact("https://kampas.be/id/gebouw/", "Kampas");
    assert SourceSystems[4] == ("https://www.jeugdmaps.be/id/buitenruimte/", "Jeugdmaps");
    assert SourceSystems[6] == ("https://www.jeugdmaps.be/id/gebouw/", "Jeugdmaps");
    assert SourceSystems[0] == ("https://kampas.be/id/gebouw/", "Kampas");
  }

  /** Matching is exact string equality: the Kampas namespace without its trailing slash
      is not recognised and maps to `NULL`. */
  lemma UnknownNamespace()
    ensures SourceSystem(Some("https://kampas.be/id/gebouw")) == None
  {
    var ns := "https://kampas.be/id/gebouw";
    assert |ns| == 27;
    assert forall i :: 0 <= i < |SourceSystems| ==> |SourceSystems[i].0| >= 28;
  }

  // ---------------------------------------------------------------------------
  // all_infras: numbering and projection
  // ---------------------------------------------------------------------------

  /** One row of the raw table, restricted to the columns the `SELECT` reads; each is
      nullable. */
  datatype RawBinding = RawBinding(
    locationName: Option<string>, locationType: Option<string>, infraType: Option<string>,
    thoroughfare: Option<string>, huisnummer: Option<string>, postCode: Option<string>,
    city: Option<string>, bron: Option<string>, createdBy: Option<string>,
    subject: Option<string>, adresregisteruri: Option<string>, namespace: Option<string>,
    identifier: Option<string>, localid: Option<string>, point: Option<string>,
    gml: Option<string>)

  /** One row of `all_infras`: the surrogate `id`, the renamed raw columns, the derived
      `location_type_label` and `source_system`. */
  datatype InfraRecord = InfraRecord(
    id: nat, locationName: Option<string>, locationTypeUri: Option<string>,
    locationTypeLabel: Option<string>, infraTypeUri: Option<string>, street: Option<string>,
    houseNumber: Option<string>, postalCode: Option<string>, city: Option<string>,
    uwpSourceDp: Option<string>, createdBy: Option<string>, sourceUri: Option<string>,
    adresregisterUri: Option<string>, sourceSystem: Option<string>,
    identifier: Option<string>, localid: Option<string>, namespace: Option<string>,
    point: Option<string>, gml: Option<string>)

  /** The select list applied to one raw row whose `row_number()` is `id`. */
  function Project(b: RawBinding, id: nat): (r: InfraRecord)
    ensures r.id == id && RawOf(r) == b
    ensures r.locationTypeLabel == SplitCamelCase(b.locationType) && r.sourceSystem == SourceSystem(b.namespace)
  {
    InfraRecord(
      id, b.locationName, b.locationType, SplitCamelCase(b.locationType), b.infraType,
      b.thoroughfare, b.huisnummer, b.postCode, b.city, b.bron, b.createdBy, b.subject,
      b.adresregisteruri, SourceSystem(b.namespace), b.identifier, b.localid, b.namespace,
      b.point, b.gml)
  }

  /** The raw row a record was projected from, read back through the renamed columns. */
  function RawOf(r: InfraRecord): RawBinding
  {
    RawBinding(
      r.locationName, r.locationTypeUri, r.infraTypeUri, r.street, r.houseNumber,
      r.postalCode, r.city, r.uwpSourceDp, r.createdBy, r.sourceUri, r.adresregisterUri,
      r.namespace, r.identifier, r.localid, r.point, r.gml)
  }

  /** `row_number() OVER ()` from `first` on: the rows projected in input order, numbered
      consecutively. */
  function NumberFrom(rows: seq<RawBinding>, first: nat): (table: seq<InfraRecord>)
    ensures |table| == |rows|
    ensures forall i :: 0 <= i < |rows| ==> table[i].id == first + i && RawOf(table[i]) == rows[i]
    ensures forall i :: 0 <= i < |rows| ==>
      table[i].locationTypeLabel == SplitCamelCase(rows[i].locationType) &&
      table[i].sourceSystem == SourceSystem(rows[i].namespace)
  {
    if rows == [] then []
    else [Project(rows[0], first)] + NumberFrom(rows[1..], first + 1)
  }

  /** `CREATE OR REPLACE TABLE all_infras AS SELECT row_number() OVER () AS id, ...`:
      one record per raw row, ids dense from 1 in row order, every raw column carried
      over unchanged under its new name, and the two derived columns computed from the
      same row. */
  function AllInfras(rows: seq<RawBinding>): (table: seq<InfraRecord>)
    ensures |table| == |rows|
    ensures forall i :: 0 <= i < |rows| ==> table[i].id == i + 1 && RawOf(table[i]) == rows[i]
    ensures forall i :: 0 <= i < |rows| ==>
      table[i].locationTypeLabel == SplitCamelCase(rows[i].locationType) &&
      table[i].sourceSystem == SourceSystem(rows[i].namespace)
  {
    NumberFrom(rows, 1)
  }

  /** The surrogate ids of a snapshot lie in 1..N and identify its rows. */
  lemma SurrogateIdsUnique(rows: seq<RawBinding>)
    ensures forall r :: r in AllInfras(rows) ==> 1 <= r.id <= |rows|
    ensures forall i, j :: 0 <= i < j < |rows| ==> AllInfras(rows)[i].id != AllInfras(rows)[j].id
  {
  }
}
