/**
  `relink` and `links` of scripts/build_docs_notebooks.py: the generated section at the end
  of a documentation page.
 */
module Relink {
  import opened Sequences

  const OPENING := "<!-- notebooks: "
  const GENERATOR := "scripts/build_docs_notebooks.py"

  function Start(): string { OPENING + ("generated by " + (GENERATOR + " -->")) }

  function End(): string { "<!-- /notebooks -->" }

  datatype Language = Rust | Python | JavaScript

  /** A notebook, by the way up from its page and the page's slug. */
  datatype Notebook = Notebook(language: Language, up: nat, slug: string)

  function Title(language: Language): string {
    match language
    case Rust => "Rust"
    case Python => "Python"
    case JavaScript => "JavaScript"
  }

  function LanguageName(language: Language): string {
    match language
    case Rust => "rust"
    case Python => "python"
    case JavaScript => "javascript"
  }

  function Upward(up: nat): string {
    if up == 0 then "" else "../" + Upward(up - 1)
  }

  function Offer(notebook: Notebook): string {
    "[" + (Title(notebook.language) + ("](" + (Upward(notebook.up) + ("notebooks/" + (notebook.slug
    + ("-" + (LanguageName(notebook.language) + ".ipynb){ download }")))))))
  }

  /** A slug has nothing in it but lower-case letters, digits and underscores. */
  predicate SlugChar(c: char) {
    'a' <= c <= 'z' || '0' <= c <= '9' || c == '_'
  }

  predicate Slugged(notebooks: seq<Notebook>) {
    forall i, k :: 0 <= i < |notebooks| && 0 <= k < |notebooks[i].slug| ==> SlugChar(notebooks[i].slug[k])
  }

  function Offers(notebooks: seq<Notebook>): string {
    if notebooks == [] then ""
    else if |notebooks| == 1 then Offer(notebooks[0])
    else Offer(notebooks[0]) + ",\n" + Offers(notebooks[1..])
  }

  const HEADING := "\n\n## Notebooks\n\n"
  const SENTENCE := "Every example on this page, as "
  const CLAUSE := "a notebook generated from these blocks and\n"
  const SHIPPED := "shipped unexecuted:\n"

  /** What stands between the two markers. */
  function Inside(notebooks: seq<Notebook>): string {
    HEADING + (SENTENCE + (CLAUSE + (SHIPPED + (Offers(notebooks) + ".\n\n"))))
  }

  /** `links`. */
  function Links(notebooks: seq<Notebook>): string {
    Start() + (Inside(notebooks) + (End() + "\n"))
  }

  /** The offer of a notebook in each language, word for word. */
  lemma OfferWords(up: nat, slug: string)
    ensures Offer(Notebook(Rust, up, slug))
         == "[" + ("Rust" + ("](" + (Upward(up) + ("notebooks/" + (slug
            + ("-" + ("rust" + ".ipynb){ download }")))))))
    ensures Offer(Notebook(Python, up, slug))
         == "[" + ("Python" + ("](" + (Upward(up) + ("notebooks/" + (slug
            + ("-" + ("python" + ".ipynb){ download }")))))))
    ensures Offer(Notebook(JavaScript, up, slug))
         == "[" + ("JavaScript" + ("](" + (Upward(up) + ("notebooks/" + (slug
            + ("-" + ("javascript" + ".ipynb){ download }")))))))
    ensures Upward(0) == "" && Upward(up + 1) == "../" + Upward(up)
  {
  }

  /** The section, word for word: the offers one a line, with a comma between them and a full stop behind the last. */
  lemma LinksWords(notebooks: seq<Notebook>)
    ensures Links(notebooks)
         == ("<!-- notebooks: " + ("generated by " + ("scripts/build_docs_notebooks.py" + " -->")))
            + ("\n\n## Notebooks\n\n"
               + ("Every example on this page, as "
                  + ("a notebook generated from these blocks and\n"
                     + ("shipped unexecuted:\n" + (Offers(notebooks) + ".\n\n"))))
               + ("<!-- /notebooks -->" + "\n"))
    ensures notebooks != [] ==>
      Offers(notebooks)
      == if |notebooks| == 1 then Offer(notebooks[0]) else Offer(notebooks[0]) + ",\n" + Offers(notebooks[1..])
  {
    hide Offer, Offers;
    OffersStep(notebooks);
  }

  lemma OffersStep(notebooks: seq<Notebook>)
    ensures notebooks != [] ==>
      Offers(notebooks)
      == if |notebooks| == 1 then Offer(notebooks[0]) else Offer(notebooks[0]) + ",\n" + Offers(notebooks[1..])
  {
    hide Offer;
  }

  // ----- Finding text -----

  predicate At(text: string, pattern: string, i: int) {
    0 <= i && i + |pattern| <= |text| && text[i..i + |pattern|] == pattern
  }

  /** A pattern stands at a place exactly when the text is what is before it, the pattern, and the rest. */
  lemma AtIff(before: string, pattern: string, after: string, text: string)
    ensures text == before + pattern + after ==> At(text, pattern, |before|)
    ensures forall i :: At(text, pattern, i) ==>
      0 <= i && i + |pattern| <= |text| && text == text[..i] + pattern + text[i + |pattern|..]
  {
    if text == before + pattern + after {
      assert text[|before|..|before| + |pattern|] == pattern;
    }
    forall i | At(text, pattern, i) ensures text == text[..i] + pattern + text[i + |pattern|..] {
      assert text == text[..i] + text[i..i + |pattern|] + text[i + |pattern|..];
    }
  }

  /** `str.find`. */
  function Find(text: string, pattern: string, from: nat): (found: Option<nat>)
    ensures found.Some? ==> from <= found.value && At(text, pattern, found.value)
    ensures found.Some? ==> forall i :: from <= i < found.value ==> !At(text, pattern, i)
    ensures found.None? ==> forall i :: from <= i ==> !At(text, pattern, i)
    decreases |text| - from
  {
    if from > |text| then None
    else if At(text, pattern, from) then Some(from)
    else Find(text, pattern, from + 1)
  }

  predicate Contains(text: string, pattern: string) {
    Find(text, pattern, 0).Some?
  }

  /** `rstrip("\\n")`. */
  function Trimmed(text: string): (trimmed: string)
    ensures |trimmed| <= |text| && trimmed == text[..|trimmed|]
    ensures forall i :: |trimmed| <= i < |text| ==> text[i] == '\n'
    ensures trimmed != "" ==> trimmed[|trimmed| - 1] != '\n'
  {
    if text != "" && text[|text| - 1] == '\n' then Trimmed(text[..|text| - 1]) else text
  }

  // ----- The page -----

  /** Every section taken out, one after the other: None when one is opened and never closed. */
  function Unlinked(text: string): Option<string>
    decreases |text|
  {
    var start := Find(text, Start(), 0);
    if start.None? then Some(text)
    else
      var end := Find(text, End(), start.value);
      if end.None? then None else Unlinked(text[..start.value] + text[end.value + |End()|..])
  }

  function Relinked(text: string, notebooks: seq<Notebook>): Option<string> {
    var body := Unlinked(text);
    if body.None? then None
    else Some(if notebooks == [] then Trimmed(body.value) + "\n" else Trimmed(body.value) + "\n\n" + Links(notebooks))
  }

  lemma UnlinkStep(text: string)
    ensures Find(text, Start(), 0).None? ==> Unlinked(text) == Some(text)
    ensures Find(text, Start(), 0).Some? ==>
      var start := Find(text, Start(), 0).value;
      var end := Find(text, End(), start);
      && (end.None? ==> Unlinked(text).None?)
      && (end.Some? ==>
            && start <= end.value && end.value + |End()| <= |text| && |End()| > 0
            && Unlinked(text) == Unlinked(text[..start] + text[end.value + |End()|..]))
  {
    hide Start, Find;
    EndNotEmpty();
    hide End;
  }

  /** `relink`: None when it raises. */
  method RelinkPage(page: string, notebooks: seq<Notebook>) returns (linked: Option<string>)
    ensures linked == Relinked(page, notebooks)
  {
    hide Start, End, Links, Unlinked, Find;
    var text := page;
    var start := Find(text, Start(), 0);
    while start.Some?
      invariant start == Find(text, Start(), 0)
      invariant Unlinked(page) == Unlinked(text)
      decreases |text|
    {
      UnlinkStep(text);
      var end := Find(text, End(), start.value);
      if end.None? { return None; }
      text := text[..start.value] + text[end.value + |End()|..];
      start := Find(text, Start(), 0);
    }
    UnlinkStep(text);
    var body := Trimmed(text);
    return Some(if notebooks == [] then body + "\n" else body + "\n\n" + Links(notebooks));
  }

  lemma EndNotEmpty()
    ensures |End()| == 19
  {
  }

  // ----- The markers -----

  predicate Lacks(text: string, c: char) {
    forall i :: 0 <= i < |text| ==> text[i] != c
  }

  lemma LacksBoth(a: string, b: string, c: char)
    requires Lacks(a, c) && Lacks(b, c)
    ensures Lacks(a + b, c)
  {
  }

  lemma LiteralFacts()
    ensures Lacks("generated by ", '\n') && Lacks("generated by ", '<')
    ensures Lacks(" -->", '\n') && Lacks(" -->", '<')
    ensures Lacks(OPENING, '\n') && Lacks(OPENING[1..], '<')
    ensures |OPENING| == 16 && OPENING[0] == '<' && OPENING[5] == 'n'
  {
  }

  lemma GeneratorFacts()
    ensures Lacks(GENERATOR, '\n') && Lacks(GENERATOR, '<')
  {
  }

  lemma StartFacts()
    ensures |Start()| > 5 && Start()[0] == '<' && Start()[5] == 'n'
    ensures Lacks(Start(), '\n') && Lacks(Start()[1..], '<')
  {
    LiteralFacts();
    GeneratorFacts();
    hide Lacks;
    var tail := GENERATOR + " -->";
    LacksBoth(GENERATOR, " -->", '\n');
    LacksBoth(GENERATOR, " -->", '<');
    var rest := "generated by " + tail;
    LacksBoth("generated by ", tail, '\n');
    LacksBoth("generated by ", tail, '<');
    LacksBoth(OPENING, rest, '\n');
    LacksBoth(OPENING[1..], rest, '<');
    assert (OPENING + rest)[1..] == OPENING[1..] + rest;
  }

  lemma EndFacts()
    ensures |End()| == 19 && End()[0] == '<' && End()[5] == '/'
    ensures Lacks(End(), '\n') && Lacks(End()[1..], '<')
  {
  }

  // ----- Nothing in a section looks like a marker -----

  lemma {:induction false} UpwardLacks(up: nat)
    ensures Lacks(Upward(up), '<')
  {
    if up > 0 {
      UpwardLacks(up - 1);
      LacksBoth("../", Upward(up - 1), '<');
    }
  }

  lemma OfferLiterals()
    ensures Lacks("[", '<') && Lacks("](", '<') && Lacks("notebooks/", '<') && Lacks("-", '<')
    ensures Lacks(".ipynb){ download }", '<')
  {
  }

  lemma NamesLack(language: Language)
    ensures Lacks(Title(language), '<') && Lacks(LanguageName(language), '<')
  {
  }

  lemma OfferLacks(notebook: Notebook)
    requires forall k :: 0 <= k < |notebook.slug| ==> SlugChar(notebook.slug[k])
    ensures Lacks(Offer(notebook), '<')
  {
    assert Lacks(notebook.slug, '<') by {
      assert forall c :: SlugChar(c) ==> c != '<';
    }
    OfferLiterals();
    NamesLack(notebook.language);
    UpwardLacks(notebook.up);
    hide Lacks, SlugChar, Title, LanguageName, Upward;
    var name := LanguageName(notebook.language);
    LacksBoth(name, ".ipynb){ download }", '<');
    LacksBoth("-", name + ".ipynb){ download }", '<');
    LacksBoth(notebook.slug, "-" + (name + ".ipynb){ download }"), '<');
    LacksBoth("notebooks/", notebook.slug + ("-" + (name + ".ipynb){ download }")), '<');
    var path := "notebooks/" + (notebook.slug + ("-" + (name + ".ipynb){ download }")));
    LacksBoth(Upward(notebook.up), path, '<');
    LacksBoth("](", Upward(notebook.up) + path, '<');
    LacksBoth(Title(notebook.language), "](" + (Upward(notebook.up) + path), '<');
    LacksBoth("[", Title(notebook.language) + ("](" + (Upward(notebook.up) + path)), '<');
  }

  lemma {:induction false} OffersLack(notebooks: seq<Notebook>)
    requires Slugged(notebooks)
    ensures Lacks(Offers(notebooks), '<')
    decreases |notebooks|
  {
    if notebooks != [] {
      OfferLacks(notebooks[0]);
      hide Offer;
      if |notebooks| > 1 {
        assert Slugged(notebooks[1..]) by {
          forall i, k | 0 <= i < |notebooks[1..]| && 0 <= k < |notebooks[1..][i].slug|
            ensures SlugChar(notebooks[1..][i].slug[k])
          {
            assert SlugChar(notebooks[i + 1].slug[k]);
          }
        }
        OffersLack(notebooks[1..]);
        LacksBoth(",\n", Offers(notebooks[1..]), '<');
        LacksBoth(Offer(notebooks[0]), ",\n" + Offers(notebooks[1..]), '<');
        assert Offer(notebooks[0]) + ",\n" + Offers(notebooks[1..])
            == Offer(notebooks[0]) + (",\n" + Offers(notebooks[1..]));
      }
    }
  }

  lemma SentenceLacks()
    ensures Lacks(SENTENCE, '<')
  {
  }

  lemma ClauseLacks()
    ensures Lacks(CLAUSE, '<')
  {
  }

  lemma HeadingLacks()
    ensures Lacks(HEADING, '<') && Lacks(SHIPPED, '<') && Lacks(".\n\n", '<')
  {
  }

  lemma InsideLacks(notebooks: seq<Notebook>)
    requires Slugged(notebooks)
    ensures Lacks(Inside(notebooks), '<')
  {
    SentenceLacks();
    ClauseLacks();
    HeadingLacks();
    OffersLack(notebooks);
    hide Lacks, Slugged, Offers;
    var offers := Offers(notebooks);
    LacksBoth(offers, ".\n\n", '<');
    LacksBoth(SHIPPED, offers + ".\n\n", '<');
    LacksBoth(CLAUSE, SHIPPED + (offers + ".\n\n"), '<');
    LacksBoth(SENTENCE, CLAUSE + (SHIPPED + (offers + ".\n\n")), '<');
    LacksBoth(HEADING, SENTENCE + (CLAUSE + (SHIPPED + (offers + ".\n\n"))), '<');
  }

  // ----- Where the markers are -----

  /** A body: no section in it, and nothing to trim. */
  predicate IsBody(body: string) {
    !Contains(body, Start()) && (body != "" ==> body[|body| - 1] != '\n')
  }

  /** One character that differs is enough. */
  lemma Mismatch(text: string, pattern: string, i: int, k: nat)
    requires k < |pattern| && (0 <= i && i + |pattern| <= |text| ==> text[i + k] != pattern[k])
    ensures !At(text, pattern, i)
  {
    if 0 <= i && i + |pattern| <= |text| {
      assert text[i..i + |pattern|][k] == text[i + k];
    }
  }

  lemma AtPrefix(text: string, prefix: string, rest: string, pattern: string, i: int)
    requires text == prefix + rest && 0 <= i && i + |pattern| <= |prefix|
    ensures At(text, pattern, i) <==> At(prefix, pattern, i)
  {
    assert text[i..i + |pattern|] == prefix[i..i + |pattern|];
  }

  /** No start marker begins before the line break that ends a body. */
  lemma NoStartInBody(body: string, rest: string, i: int)
    requires !Contains(body, Start()) && i <= |body|
    ensures !At(body + "\n" + rest, Start(), i)
  {
    StartFacts();
    hide Start, Contains, Lacks, At;
    var text := body + "\n" + rest;
    if 0 <= i && i + |Start()| <= |body| {
      assert text == body + ("\n" + rest);
      AtPrefix(text, body, "\n" + rest, Start(), i);
      NotContained(body, Start(), i);
    } else if 0 <= i {
      var k := |body| - i;
      assert text[i + k] == '\n';
      LacksAt(Start(), '\n', k);
      Mismatch(text, Start(), i, k);
    } else {
      NeverBefore(text, Start(), i);
    }
  }

  lemma NeverBefore(text: string, pattern: string, i: int)
    requires i < 0
    ensures !At(text, pattern, i)
  {
  }

  lemma NotContained(text: string, pattern: string, i: int)
    requires !Contains(text, pattern)
    ensures !At(text, pattern, i)
  {
  }

  lemma LacksAt(text: string, c: char, i: nat)
    requires Lacks(text, c) && i < |text|
    ensures text[i] != c
  {
  }

  /** A page of a body and a section. */
  function Page(body: string, notebooks: seq<Notebook>): string {
    body + "\n\n" + Links(notebooks)
  }

  lemma PageParts(body: string, notebooks: seq<Notebook>)
    ensures var page := Page(body, notebooks);
      var a, b, c := |body| + 2, |body| + 2 + |Start()|, |body| + 2 + |Start()| + |Inside(notebooks)|;
      && |page| == c + |End()| + 1
      && page == body + "\n" + ("\n" + Links(notebooks))
      && page[..a] == body + "\n\n" && page[a..b] == Start() && page[b..c] == Inside(notebooks)
      && page[c..c + |End()|] == End() && page[c + |End()|..] == "\n" && page[a - 1] == '\n'
  {
    hide Start, End, Inside;
  }

  /** In the section the character '<' opens the two markers and stands nowhere else. */
  lemma PageAngles(body: string, notebooks: seq<Notebook>, i: nat)
    requires Slugged(notebooks) && |body| + 2 < i < |Page(body, notebooks)|
    ensures i != |body| + 2 + |Start()| + |Inside(notebooks)| ==> Page(body, notebooks)[i] != '<'
  {
    hide Start, End, Inside, Links, Slugged, Page, Lacks;
    PageParts(body, notebooks);
    StartFacts();
    EndFacts();
    InsideLacks(notebooks);
    BreakLacks();
    var page := Page(body, notebooks);
    var a, b, c := |body| + 2, |body| + 2 + |Start()|, |body| + 2 + |Start()| + |Inside(notebooks)|;
    if i < b {
      TailLacks(page, a, b, Start(), '<', i);
    } else if i < c {
      SliceLacks(page, b, c, Inside(notebooks), '<', i);
    } else if c < i < c + |End()| {
      TailLacks(page, c, c + |End()|, End(), '<', i);
    } else if i >= c + |End()| {
      SliceLacks(page, c + |End()|, |page|, "\n", '<', i);
    }
  }

  lemma BreakLacks()
    ensures Lacks("\n", '<')
  {
  }

  lemma SliceLacks(text: string, from: nat, to: nat, part: string, c: char, i: nat)
    requires from <= i < to <= |text| && text[from..to] == part && Lacks(part, c)
    ensures text[i] != c
  {
    assert part[i - from] == text[i];
  }

  lemma TailLacks(text: string, from: nat, to: nat, part: string, c: char, i: nat)
    requires from < i < to <= |text| && text[from..to] == part && Lacks(part[1..], c)
    ensures text[i] != c
  {
    assert part[1..][i - from - 1] == text[i];
  }

  /** The one start marker of a page. */
  lemma StartOnce(body: string, notebooks: seq<Notebook>, i: int)
    requires IsBody(body) && Slugged(notebooks)
    ensures At(Page(body, notebooks), Start(), i) <==> i == |body| + 2
  {
    hide Start, End, Inside, Links, Slugged, Page, Contains, Lacks;
    PageParts(body, notebooks);
    StartFacts();
    EndFacts();
    var page := Page(body, notebooks);
    var a, c := |body| + 2, |body| + 2 + |Start()| + |Inside(notebooks)|;
    if i <= |body| {
      NoStartInBody(body, "\n" + Links(notebooks), i);
    } else if i == a - 1 {
      Mismatch(page, Start(), i, 0);
    } else if i == c {
      assert page[c..c + |End()|][5] == page[c + 5];
      Mismatch(page, Start(), i, 5);
    } else if a < i {
      if i < |page| { PageAngles(body, notebooks, i); }
      Mismatch(page, Start(), i, 0);
    }
  }

  /** The end marker that closes it. */
  lemma EndAfterStart(body: string, notebooks: seq<Notebook>, i: nat)
    requires Slugged(notebooks) && |body| + 2 <= i
    ensures At(Page(body, notebooks), End(), i) <==> i == |body| + 2 + |Start()| + |Inside(notebooks)|
  {
    hide Start, End, Inside, Links, Slugged, Page, Lacks;
    PageParts(body, notebooks);
    StartFacts();
    EndFacts();
    var page := Page(body, notebooks);
    var a, b, c := |body| + 2, |body| + 2 + |Start()|, |body| + 2 + |Start()| + |Inside(notebooks)|;
    if i == a {
      assert page[a..b][5] == page[a + 5];
      Mismatch(page, End(), i, 5);
    } else if i != c {
      if i < |page| { PageAngles(body, notebooks, i); }
      Mismatch(page, End(), i, 0);
    }
  }

  // ----- Relinking again -----

  /** The first occurrence is where `find` finds it. */
  lemma FindIs(text: string, pattern: string, from: nat, i: nat)
    requires from <= i && At(text, pattern, i) && forall k :: from <= k < i ==> !At(text, pattern, k)
    ensures Find(text, pattern, from) == Some(i)
  {
    hide At;
  }

  lemma FindNothing(text: string, pattern: string, from: nat)
    requires forall k :: from <= k ==> !At(text, pattern, k)
    ensures Find(text, pattern, from) == None
  {
    hide At;
  }

  lemma TrimmedIs(text: string, body: string)
    requires |body| <= |text| && text[..|body|] == body && (body != "" ==> body[|body| - 1] != '\n')
    requires forall i :: |body| <= i < |text| ==> text[i] == '\n'
    ensures Trimmed(text) == body
  {
  }

  /** A body and line breaks have no section, and trim to the body. */
  lemma BodyAlone(body: string, breaks: string)
    requires IsBody(body) && breaks != "" && forall i :: 0 <= i < |breaks| ==> breaks[i] == '\n'
    ensures Unlinked(body + breaks) == Some(body + breaks) && Trimmed(body + breaks) == body
  {
    StartFacts();
    hide Start, Contains, Lacks;
    var text := body + breaks;
    assert text == body + "\n" + breaks[1..];
    forall i: int | 0 <= i ensures !At(text, Start(), i) {
      if i <= |body| {
        NoStartInBody(body, breaks[1..], i);
      } else {
        Mismatch(text, Start(), i, 0);
      }
    }
    FindNothing(text, Start(), 0);
    UnlinkStep(text);
    hide Unlinked;
    TrimmedIs(text, body);
  }

  /** Taking the section out of a page leaves the body. */
  lemma PageUnlinks(body: string, notebooks: seq<Notebook>)
    requires IsBody(body) && Slugged(notebooks)
    ensures Unlinked(Page(body, notebooks)).Some? && Trimmed(Unlinked(Page(body, notebooks)).value) == body
  {
    PageParts(body, notebooks);
    hide Start, End, Inside, Links, Slugged, Page, Contains, At, IsBody;
    var page := Page(body, notebooks);
    var a, c := |body| + 2, |body| + 2 + |Start()| + |Inside(notebooks)|;
    forall i: int ensures At(page, Start(), i) <==> i == a { StartOnce(body, notebooks, i); }
    FindIs(page, Start(), 0, a);
    forall i | a <= i ensures At(page, End(), i) <==> i == c { EndAfterStart(body, notebooks, i); }
    FindIs(page, End(), a, c);
    UnlinkStep(page);
    assert page[..a] + page[c + |End()|..] == body + "\n\n\n";
    BodyAlone(body, "\n\n\n");
  }

  /** What is left of a page has no section. */
  lemma {:induction false} UnlinkedHasNone(text: string)
    requires Unlinked(text).Some?
    ensures !Contains(Unlinked(text).value, Start())
    decreases |text|
  {
    UnlinkStep(text);
    hide Start, End, Unlinked;
    if Find(text, Start(), 0).Some? {
      var start := Find(text, Start(), 0).value;
      var end := Find(text, End(), start).value;
      UnlinkedHasNone(text[..start] + text[end + |End()|..]);
    }
  }

  lemma TrimmedBody(text: string)
    requires !Contains(text, Start())
    ensures IsBody(Trimmed(text))
  {
    hide Start;
    var body := Trimmed(text);
    forall i | 0 <= i ensures !At(body, Start(), i) {
      if i + |Start()| <= |body| {
        assert text == body + text[|body|..];
        AtPrefix(text, body, text[|body|..], Start(), i);
      }
    }
    FindNothing(body, Start(), 0);
  }

  /**
    The form of every page that comes out: a body without any section, and at its end the
    section offering the notebooks, if there are any.
   */
  lemma RelinkedForm(page: string, notebooks: seq<Notebook>)
    requires Relinked(page, notebooks).Some?
    ensures Unlinked(page).Some?
    ensures var body := Trimmed(Unlinked(page).value);
      IsBody(body) && Relinked(page, notebooks).value == if notebooks == [] then body + "\n" else Page(body, notebooks)
  {
    UnlinkedHasNone(page);
    hide Unlinked, Contains, IsBody, Start, Links;
    TrimmedBody(Unlinked(page).value);
  }

  /** The result has one section at its end if there are notebooks, and none otherwise. */
  lemma OneSection(page: string, notebooks: seq<Notebook>)
    requires Relinked(page, notebooks).Some? && Slugged(notebooks)
    ensures var linked, body := Relinked(page, notebooks).value, Trimmed(Unlinked(page).value);
      && (forall i :: At(linked, Start(), i) <==> notebooks != [] && i == |body| + 2)
      && (notebooks != [] ==> linked[|body| + 2..] == Links(notebooks))
  {
    RelinkedForm(page, notebooks);
    hide Unlinked, Start, Links, At, IsBody, Slugged;
    var linked, body := Relinked(page, notebooks).value, Trimmed(Unlinked(page).value);
    if notebooks == [] {
      BodyAlone(body, "\n");
      UnlinkStep(linked);
      forall i: int ensures !At(linked, Start(), i) {
        if i < 0 { NeverBefore(linked, Start(), i); } else { NoneFound(linked, i); }
      }
    } else {
      forall i: int ensures At(linked, Start(), i) <==> i == |body| + 2 { StartOnce(body, notebooks, i); }
      assert linked[|body| + 2..] == Links(notebooks);
    }
  }

  lemma NoneFound(text: string, i: nat)
    requires Unlinked(text) == Some(text)
    ensures !At(text, Start(), i)
  {
    UnlinkedHasNone(text);
    hide Start, At, Unlinked;
  }

  /**
    Relinking a page that was already relinked, for whatever notebooks, is relinking the
    page it was made from.
   */
  lemma RelinkingForgets(page: string, before: seq<Notebook>, notebooks: seq<Notebook>)
    requires Relinked(page, before).Some? && Slugged(before)
    ensures Relinked(Relinked(page, before).value, notebooks) == Relinked(page, notebooks)
  {
    RelinkedForm(page, before);
    var body := Trimmed(Unlinked(page).value);
    hide Unlinked, Start, Links, IsBody, Slugged, Page, Trimmed;
    if before == [] { BodyAlone(body, "\n"); } else { PageUnlinks(body, before); }
  }

  /** Relinking twice is relinking once. */
  lemma Idempotent(page: string, notebooks: seq<Notebook>)
    requires Relinked(page, notebooks).Some? && Slugged(notebooks)
    ensures Relinked(Relinked(page, notebooks).value, notebooks) == Relinked(page, notebooks)
  {
    hide Relinked;
    RelinkingForgets(page, notebooks, notebooks);
  }

  /** A page without a section keeps all it has, up to the line breaks at its end. */
  lemma KeepsBody(page: string, notebooks: seq<Notebook>)
    requires !Contains(page, Start())
    ensures Relinked(page, notebooks).Some?
    ensures Trimmed(page) <= Relinked(page, notebooks).value && Trimmed(page) == page[..|Trimmed(page)|]
    ensures forall i :: |Trimmed(page)| <= i < |page| ==> page[i] == '\n'
  {
    UnlinkStep(page);
    hide Start, Links, Unlinked;
  }
}
