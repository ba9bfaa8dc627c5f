/** The list logic of the phrase table (src/PhraseTable.tsx): the structural
    validation of the fetched entries, the search filter, the de-duplicated list
    of categories to show, and each category's phrase count and sample text. */
module PhraseTable {
  import opened Wrappers
  import opened Seqs
  import opened Text

  /** A property of a fetched JSON entry: one of the JSON value kinds, or `Missing`
      when the entry has no such property (it then reads as `undefined`). */
  datatype Field = Str(s: string) | Num | Bool | JsonNull | Composite | Missing

  /** `typeof` of a property value; `null`, objects and arrays are all `"object"`. */
  function TypeOf(f: Field): (t: string)
    ensures t == "string" <==> f.Str?
    ensures t == "undefined" <==> f.Missing?
  {
    match f
    case Str(_) => "string"
    case Num => "number"
    case Bool => "boolean"
    case JsonNull => "object"
    case Composite => "object"
    case Missing => "undefined"
  }

  /** One element of the fetched JSON array. Reading a property of a `Null`
      element throws; a `Scalar` element (a number, string or boolean) has none
      of the five properties, so each of them reads as `undefined`. */
  datatype Entry =
    | Object(category: Field, amharic: Field, english: Field, phonetic: Field, notes: Field)
    | Null
    | Scalar

  /** An entry that passed validation; `notes` is `None` when it was undefined. */
  datatype Phrase = Phrase(category: string, amharic: string, english: string, phonetic: string,
                           notes: Option<string>)

  /** Why loading failed: a null entry made the validator throw, or nothing passed it. */
  datatype LoadError = NullEntry | NoValidPhrases

  /** The validator's test, written with `typeof` as the source writes it: string
      `category`, `amharic`, `english` and `phonetic`, and a `notes` that is a string
      or `undefined`. A scalar element has none of these properties. */
  predicate WellTyped(e: Entry)
    ensures WellTyped(e) <==>
      e.Object? && e.category.Str? && e.amharic.Str? && e.english.Str? && e.phonetic.Str? &&
      (e.notes.Str? || e.notes.Missing?)
  {
    match e
    case Object(category, amharic, english, phonetic, notes) =>
      TypeOf(category) == "string" && TypeOf(amharic) == "string" &&
      TypeOf(english) == "string" && TypeOf(phonetic) == "string" &&
      (TypeOf(notes) == "string" || notes == Missing)
    case Null => false
    case Scalar => false
  }

  /** The typed view of an entry that passed validation. */
  function ToPhrase(e: Entry): (p: Phrase)
    requires WellTyped(e)
    ensures p.category == e.category.s && p.amharic == e.amharic.s
    ensures p.english == e.english.s && p.phonetic == e.phonetic.s
    ensures p.notes.Some? <==> e.notes.Str?
    ensures p.notes.Some? ==> p.notes.value == e.notes.s
  {
    Phrase(e.category.s, e.amharic.s, e.english.s, e.phonetic.s,
           if e.notes.Str? then Some(e.notes.s) else None)
  }

  /** `data.filter(...)` with the validator's test: the entries kept, in order. */
  function Validated(data: seq<Entry>): (r: seq<Entry>)
    ensures IsSubsequence(r, data)
    ensures forall i :: 0 <= i < |r| ==> WellTyped(r[i])
    ensures forall e :: multiset(r)[e] == if WellTyped(e) then multiset(data)[e] else 0
  {
    FilterExact(WellTyped, data);
    Filter(WellTyped, data)
  }

  /** The kept entries, read through the `Phrase` interface. */
  function Typed(entries: seq<Entry>): (r: seq<Phrase>)
    requires forall i :: 0 <= i < |entries| ==> WellTyped(entries[i])
    ensures |r| == |entries|
    ensures forall i :: 0 <= i < |r| ==> r[i] == ToPhrase(entries[i])
  {
    seq(|entries|, i requires 0 <= i < |entries| => ToPhrase(entries[i]))
  }

  /** What becomes the phrase list once the JSON array `data` has arrived: the
      validated entries, or the error the source throws. A null element throws
      while the filter runs; an empty validated list throws afterwards. */
  function Load(data: seq<Entry>): (r: Result<seq<Phrase>, LoadError>)
    ensures r == Err(NullEntry) <==> exists i :: 0 <= i < |data| && data[i].Null?
    ensures r == Err(NoValidPhrases) <==>
      forall i :: 0 <= i < |data| ==> !data[i].Null? && !WellTyped(data[i])
    ensures r.Ok? ==> |r.value| > 0 && r.value == Typed(Validated(data))
  {
    if exists i :: 0 <= i < |data| && data[i].Null? then Err(NullEntry)
    else
      var kept := Validated(data);
      if |kept| == 0 then
        assert forall i :: 0 <= i < |data| ==> !WellTyped(data[i]) by {
          forall i | 0 <= i < |data| ensures !WellTyped(data[i]) {
            if WellTyped(data[i]) {
              assert false;
            }
          }
        }
        Err(NoValidPhrases)
      else
        assert WellTyped(kept[0]) && kept[0] in multiset(kept);
        assert kept[0] in data;
        Ok(Typed(kept))
  }

  /** The error line the component shows once the data has arrived, if any: the
      thrown error's message after "Failed to load phrases: ". The message of the
      `TypeError` a null entry causes comes from the JavaScript engine and is passed in. */
  function DisplayedError(data: seq<Entry>, typeErrorMessage: string): (shown: Option<string>)
    ensures shown.None? <==> Load(data).Ok?
    ensures (exists i :: 0 <= i < |data| && data[i].Null?) ==>
      shown == Some("Failed to load phrases: " + typeErrorMessage)
    ensures (forall i :: 0 <= i < |data| ==> !data[i].Null? && !WellTyped(data[i])) ==>
      shown == Some("Failed to load phrases: No valid phrases found in JSON data")
  {
    match Load(data)
    case Ok(_) => None
    case Err(NullEntry) => Some("Failed to load phrases: " + typeErrorMessage)
    case Err(NoValidPhrases) => Some("Failed to load phrases: No valid phrases found in JSON data")
  }

  // ---------------------------------------------------------------------------
  // Search

  /** The search predicate: lower-cased `english` or lower-cased `phonetic` contains
      the lower-cased term, or the raw `amharic` contains the raw term. `notes` is
      not searched. */
  predicate Matches(search: string, p: Phrase)
    ensures Matches(search, p) <==>
      (exists i :: OccursAt(Lower(p.english), Lower(search), i)) ||
      (exists i :: OccursAt(p.amharic, search, i)) ||
      (exists i :: OccursAt(Lower(p.phonetic), Lower(search), i))
  {
    ContainsIffOccurs(Lower(p.english), Lower(search));
    ContainsIffOccurs(p.amharic, search);
    ContainsIffOccurs(Lower(p.phonetic), Lower(search));
    Contains(Lower(p.english), Lower(search)) ||
    Contains(p.amharic, search) ||
    Contains(Lower(p.phonetic), Lower(search))
  }

  function MatchesSearch(search: string): Phrase -> bool
  {
    (p: Phrase) => Matches(search, p)
  }

  /** `filteredPhrases`: an order-preserving subsequence of `phrases` that keeps
      every occurrence of each matching phrase and nothing else. */
  function FilteredPhrases(phrases: seq<Phrase>, search: string): (r: seq<Phrase>)
    ensures IsSubsequence(r, phrases)
    ensures forall i :: 0 <= i < |r| ==> Matches(search, r[i])
    ensures forall i :: 0 <= i < |phrases| && Matches(search, phrases[i]) ==> phrases[i] in r
    ensures forall p :: multiset(r)[p] == if Matches(search, p) then multiset(phrases)[p] else 0
  {
    FilterExact(MatchesSearch(search), phrases);
    Filter(MatchesSearch(search), phrases)
  }

  /** An empty search term keeps every phrase. */
  lemma EmptySearchKeepsAll(phrases: seq<Phrase>)
    ensures FilteredPhrases(phrases, "") == phrases
  {
    forall i | 0 <= i < |phrases| ensures MatchesSearch("")(phrases[i]) {
      ContainsEmpty(phrases[i].amharic);
    }
    FilterAllPass(MatchesSearch(""), phrases);
  }

  /** Filtering the filtered list again by the same term changes nothing. */
  lemma RefilterChangesNothing(phrases: seq<Phrase>, search: string)
    ensures FilteredPhrases(FilteredPhrases(phrases, search), search) == FilteredPhrases(phrases, search)
  {
    FilterIdempotent(MatchesSearch(search), phrases);
  }

  /** The `amharic` field is matched case-sensitively, so a term and its lower-cased
      form can select different phrases. */
  lemma AmharicMatchIsCaseSensitive()
    ensures Matches("A", Phrase("Basic", "A", "", "", None))
    ensures !Matches("a", Phrase("Basic", "A", "", "", None))
  {
    assert Lower("") == "";
    assert Lower("a") == "a";
    assert Lower("A") == "a";
    assert !Contains("", "a");
    assert !("a" <= "A") by {
      assert "a"[0] != "A"[0];
    }
    assert !Contains("A", "a");
  }

  /** The `english` field is matched ignoring the case of both sides. */
  lemma EnglishMatchIgnoresCase()
    ensures Matches("HELLO", Phrase("Basic", "", "Hello", "", None))
  {
    assert Lower("HELLO") == "hello";
    assert Lower("Hello") == "hello";
  }

  /** For every term and phrase, lower-casing the `english` and `phonetic` texts
      beforehand never changes whether the phrase matches. */
  lemma EnglishCaseIgnored(search: string, p: Phrase)
    ensures Matches(search, p.(english := Lower(p.english), phonetic := Lower(p.phonetic))) ==
            Matches(search, p)
  {
    LowerFacts(p.english);
    LowerFacts(p.phonetic);
  }

  /** `notes` is not searched: a phrase whose only occurrence of the term is in its
      notes is dropped. */
  lemma NotesAreNotSearched()
    ensures !Matches("hi", Phrase("Basic", "", "", "", Some("hi")))
  {
    assert Lower("") == "";
    assert Lower("hi") == "hi";
    assert !Contains("", "hi");
  }

  /** Whatever the notes of a phrase are, they do not affect whether it matches. */
  lemma NotesIgnored(search: string, p: Phrase, n: Option<string>)
    ensures Matches(search, p.(notes := n)) == Matches(search, p)
  {
  }

  /** A greeting and a farewell, as the phrase list holds them. */
  function Hello(): Phrase { Phrase("Basic", "ሰላም", "Hello", "selam", None) }
  function Goodbye(): Phrase { Phrase("Basic", "ቻው", "Goodbye", "chaw", None) }

  lemma HelloMatchesLowerCaseTerm()
    ensures Matches("hello", Hello())
  {
    assert Lower("hello") == "hello";
    assert Lower("Hello") == "hello";
  }

  lemma GoodbyeDoesNotMatchHello()
    ensures !Matches("hello", Goodbye())
  {
    assert Lower("hello") == "hello";
    assert Lower("Goodbye") == "goodbye";
    assert Lower("chaw") == "chaw";
    ContainsNecessary("goodbye", "hello");
    ContainsNecessary("ቻው", "hello");
    ContainsNecessary("chaw", "hello");
  }

  /** Searching "hello" among the greeting and the farewell keeps the greeting only,
      and lists its category once. */
  lemma SearchExample()
    ensures FilteredPhrases([Hello(), Goodbye()], "hello") == [Hello()]
    ensures Categories([Hello(), Goodbye()], "hello") == ["Basic"]
  {
    HelloMatchesLowerCaseTerm();
    GoodbyeDoesNotMatchHello();
    var ps := [Hello(), Goodbye()];
    assert ps[1..] == [Goodbye()];
    assert Filter(MatchesSearch("hello"), ps[1..]) == [];
    assert FilteredPhrases(ps, "hello") == [Hello()];
    assert CategoryNames([Hello()]) == ["Basic"];
  }

  // ---------------------------------------------------------------------------
  // Categories

  /** `phrases.map(phrase => phrase.category)`. */
  function CategoryNames(phrases: seq<Phrase>): (r: seq<string>)
    ensures |r| == |phrases|
    ensures forall i :: 0 <= i < |phrases| ==> r[i] == phrases[i].category
  {
    seq(|phrases|, i requires 0 <= i < |phrases| => phrases[i].category)
  }

  /** `categories`: the categories of the filtered phrases, each once, in order of
      first appearance among the filtered phrases. */
  function Categories(phrases: seq<Phrase>, search: string): (r: seq<string>)
    ensures NoDuplicates(r)
    ensures forall c :: c in r <==> c in CategoryNames(FilteredPhrases(phrases, search))
    ensures InFirstAppearanceOrder(r, CategoryNames(FilteredPhrases(phrases, search)))
  {
    var names := CategoryNames(FilteredPhrases(phrases, search));
    DistinctOrder(names);
    Distinct(names)
  }

  /** `categories` is the only list of the filtered phrases' categories, each listed
      once, in order of first appearance. */
  lemma CategoriesUnique(phrases: seq<Phrase>, search: string, t: seq<string>)
    requires forall c :: c in t <==> c in CategoryNames(FilteredPhrases(phrases, search))
    requires InFirstAppearanceOrder(t, CategoryNames(FilteredPhrases(phrases, search)))
    ensures t == Categories(phrases, search)
  {
    var names := CategoryNames(FilteredPhrases(phrases, search));
    var r := Categories(phrases, search);
    FirstAppearanceOrderUnique(t, r, names);
  }

  /** A category is the category of one of the phrases exactly when it is in their `map`. */
  lemma CategoryNamesMembership(phrases: seq<Phrase>, c: string)
    ensures c in CategoryNames(phrases) <==> exists p :: p in phrases && p.category == c
  {
    var names := CategoryNames(phrases);
    if c in names {
      var i :| 0 <= i < |names| && names[i] == c;
      assert phrases[i] in phrases && phrases[i].category == c;
    }
    if p :| p in phrases && p.category == c {
      var i :| 0 <= i < |phrases| && phrases[i] == p;
      assert names[i] == c;
    }
  }

  /** The listed categories are exactly those of the phrases that match the search. */
  lemma ListedIffSomePhraseMatches(phrases: seq<Phrase>, search: string, c: string)
    ensures c in Categories(phrases, search) <==>
      exists p :: p in phrases && p.category == c && Matches(search, p)
  {
    var filtered := FilteredPhrases(phrases, search);
    CategoryNamesMembership(filtered, c);
    if p :| p in phrases && p.category == c && Matches(search, p) {
      assert multiset(filtered)[p] > 0;
      assert p in filtered;
    }
    if p :| p in filtered && p.category == c {
      assert multiset(filtered)[p] > 0;
    }
  }

  // ---------------------------------------------------------------------------
  // Per-category summaries

  /** What a category's card shows: its name, its number of phrases and a sample. */
  datatype CategorySummary = CategorySummary(category: string, count: nat, sample: string)

  function InCategory(c: string): Phrase -> bool
  {
    (p: Phrase) => p.category == c
  }

  /** `categoryPhrases`: the phrases of category `c`, taken from the list it is given. */
  function CategoryPhrases(phrases: seq<Phrase>, c: string): (r: seq<Phrase>)
    ensures IsSubsequence(r, phrases)
    ensures forall i :: 0 <= i < |r| ==> r[i].category == c
    ensures forall i :: 0 <= i < |phrases| && phrases[i].category == c ==> phrases[i] in r
    ensures r == [] <==> c !in CategoryNames(phrases)
    ensures forall p :: multiset(r)[p] == if p.category == c then multiset(phrases)[p] else 0
  {
    FilterExact(InCategory(c), phrases);
    var r := Filter(InCategory(c), phrases);
    var names := CategoryNames(phrases);
    assert c in names ==> r != [] by {
      if c in names {
        var i :| 0 <= i < |names| && names[i] == c;
        assert InCategory(c)(phrases[i]);
      }
    }
    assert r != [] ==> c in names by {
      if r != [] {
        assert multiset(r)[r[0]] > 0;
        var j :| 0 <= j < |phrases| && phrases[j] == r[0];
        assert names[j] == c;
      }
    }
    r
  }

  /** `categoryPhrases[0]?.amharic || '...'`: never empty, since `||` replaces an
      empty or missing text by `'...'`. */
  function SampleText(categoryPhrases: seq<Phrase>): (r: string)
    ensures r != ""
    ensures |categoryPhrases| > 0 && categoryPhrases[0].amharic != "" ==> r == categoryPhrases[0].amharic
    ensures |categoryPhrases| == 0 || categoryPhrases[0].amharic == "" ==> r == "..."
  {
    if |categoryPhrases| > 0 && categoryPhrases[0].amharic != "" then categoryPhrases[0].amharic
    else "..."
  }

  /** The card of category `c`, computed from the unfiltered `phrases`: its count is
      the number of phrases of `c`, zero exactly when there is none, and its sample is
      the `amharic` text of the first phrase of `c`, or `'...'` when that text is empty
      or there is no such phrase. */
  function Summarize(phrases: seq<Phrase>, c: string): (r: CategorySummary)
    ensures r.category == c
    ensures r.count == |CategoryPhrases(phrases, c)|
    ensures r.count == 0 <==> c !in CategoryNames(phrases)
    ensures c in CategoryNames(phrases) ==>
      var k := FirstIndex(CategoryNames(phrases), c);
      r.sample == if phrases[k].amharic == "" then "..." else phrases[k].amharic
    ensures c !in CategoryNames(phrases) ==> r.sample == "..."
  {
    var cp := CategoryPhrases(phrases, c);
    var names := CategoryNames(phrases);
    assert c in names ==> cp[0] == phrases[FirstIndex(names, c)] by {
      if c in names {
        FilterFirst(InCategory(c), phrases, FirstIndex(names, c));
      }
    }
    CategorySummary(c, |cp|, SampleText(cp))
  }

  /** One card per listed category, in the order of `categories`, each computed over
      every loaded phrase whatever the search term. */
  function Summaries(phrases: seq<Phrase>, search: string): (r: seq<CategorySummary>)
    ensures |r| == |Categories(phrases, search)|
    ensures forall i :: 0 <= i < |r| ==> r[i] == Summarize(phrases, Categories(phrases, search)[i])
  {
    var cs := Categories(phrases, search);
    seq(|cs|, i requires 0 <= i < |cs| => Summarize(phrases, cs[i]))
  }

  /** A listed category's count is at least one, and at least the number of its
      phrases that match the search. */
  lemma ListedCountBounds(phrases: seq<Phrase>, search: string, c: string)
    requires c in Categories(phrases, search)
    ensures Summarize(phrases, c).count >= 1
    ensures Summarize(phrases, c).count >= |CategoryPhrases(FilteredPhrases(phrases, search), c)|
  {
    var filtered := FilteredPhrases(phrases, search);
    CategoryNamesMembership(filtered, c);
    var p :| p in filtered && p.category == c;
    assert p in phrases by {
      assert multiset(filtered)[p] > 0;
    }
    var i :| 0 <= i < |phrases| && phrases[i] == p;
    assert InCategory(c)(phrases[i]);
    assert p in CategoryPhrases(phrases, c);
    FilterAfterFilterIsShorter(MatchesSearch(search), InCategory(c), phrases);
  }
}
