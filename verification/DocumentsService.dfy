/** Page slugs of documents (app/features/documents/service.py). */
module DocumentsService {
  import opened Basics
  import opened Decimal

  const RESERVED_SLUGS: set<string> := {
    "about", "api", "contact", "events", "heroes", "join", "links", "projects",
    "scan", "sponsor", "team", "pages", "preview", "p"}

  // ---- `slugify`, on ASCII text ----

  function Lower(c: char): char {
    if 'A' <= c <= 'Z' then c + 32 as char else c
  }

  predicate IsSlugChar(c: char) {
    'a' <= c <= 'z' || '0' <= c <= '9'
  }

  function LowerAll(s: string): string {
    if |s| == 0 then "" else [Lower(s[0])] + LowerAll(s[1..])
  }

  /** `re.sub(r"[^a-z0-9]+", "-", s)`; `inRun` says the previous character belonged to a replaced run. */
  function Hyphenate(s: string, inRun: bool): string {
    if |s| == 0 then ""
    else if IsSlugChar(s[0]) then [s[0]] + Hyphenate(s[1..], false)
    else if inRun then Hyphenate(s[1..], true)
    else "-" + Hyphenate(s[1..], true)
  }

  function StripLeft(s: string): string {
    if |s| > 0 && s[0] == '-' then StripLeft(s[1..]) else s
  }

  function StripRight(s: string): string {
    if |s| > 0 && s[|s| - 1] == '-' then StripRight(s[..|s| - 1]) else s
  }

  function Slugify(text: string): string {
    var s := StripRight(StripLeft(Hyphenate(LowerAll(text), false)));
    if s == "" then "page" else s
  }

  /** Slug characters joined by single hyphens, none at either end. */
  ghost predicate IsSlug(s: string) {
    && |s| > 0 && IsSlugChar(s[0]) && IsSlugChar(s[|s| - 1])
    && (forall i :: 0 <= i < |s| ==> IsSlugChar(s[i]) || s[i] == '-')
    && (forall i :: 0 < i < |s| ==> IsSlugChar(s[i - 1]) || IsSlugChar(s[i]))
  }

  /** Like a slug, but hyphens may stand at the ends. */
  ghost predicate SingleHyphens(s: string) {
    && (forall i :: 0 <= i < |s| ==> IsSlugChar(s[i]) || s[i] == '-')
    && (forall i :: 0 < i < |s| ==> IsSlugChar(s[i - 1]) || IsSlugChar(s[i]))
  }

  lemma {:induction false} HyphenateShape(s: string, inRun: bool)
    ensures SingleHyphens(Hyphenate(s, inRun))
    ensures inRun && |Hyphenate(s, inRun)| > 0 ==> IsSlugChar(Hyphenate(s, inRun)[0])
  {
    if |s| > 0 {
      HyphenateShape(s[1..], !IsSlugChar(s[0]));
    }
  }

  lemma {:induction false} StripLeftShape(s: string)
    requires SingleHyphens(s)
    ensures SingleHyphens(StripLeft(s)) && (|StripLeft(s)| > 0 ==> IsSlugChar(StripLeft(s)[0]))
  {
    if |s| > 0 && s[0] == '-' {
      StripLeftShape(s[1..]);
    }
  }

  lemma {:induction false} StripRightShape(s: string)
    requires SingleHyphens(s) && (|s| > 0 ==> IsSlugChar(s[0]))
    ensures StripRight(s) == "" || IsSlug(StripRight(s))
  {
    if |s| > 0 && s[|s| - 1] == '-' {
      StripRightShape(s[..|s| - 1]);
    }
  }

  /** Whatever the text, the result is a slug. */
  lemma SlugifyIsSlug(text: string)
    ensures IsSlug(Slugify(text))
  {
    var h := Hyphenate(LowerAll(text), false);
    HyphenateShape(LowerAll(text), false);
    StripLeftShape(h);
    StripRightShape(StripLeft(h));
  }

  lemma {:induction false} LowerFixed(s: string)
    requires forall i :: 0 <= i < |s| ==> IsSlugChar(s[i]) || s[i] == '-'
    ensures LowerAll(s) == s
  {
    if |s| > 0 {
      LowerFixed(s[1..]);
      assert s == [s[0]] + s[1..];
    }
  }

  lemma {:induction false} HyphenateFixed(s: string, inRun: bool)
    requires SingleHyphens(s) && (inRun && |s| > 0 ==> IsSlugChar(s[0]))
    ensures Hyphenate(s, inRun) == s
  {
    if |s| > 0 {
      HyphenateFixed(s[1..], !IsSlugChar(s[0]));
      assert s == [s[0]] + s[1..];
    }
  }

  /** The slugs are exactly the fixed points, so slugify is idempotent. */
  lemma SlugifyFixesSlugs(s: string)
    ensures Slugify(s) == s <==> IsSlug(s)
    ensures Slugify(Slugify(s)) == Slugify(s)
  {
    SlugifyIsSlug(s);
    if IsSlug(s) {
      FixedPoint(s);
    }
    FixedPoint(Slugify(s));
  }

  lemma FixedPoint(s: string)
    requires IsSlug(s)
    ensures Slugify(s) == s
  {
    LowerFixed(s);
    HyphenateFixed(s, false);
    NothingToStrip(s);
  }

  lemma NothingToStrip(s: string)
    requires IsSlug(s)
    ensures StripLeft(s) == s && StripRight(s) == s
  {
  }

  // ---- A slug is the text's words ----

  predicate IsAlnum(c: char) {
    'a' <= c <= 'z' || '0' <= c <= '9' || 'A' <= c <= 'Z'
  }

  /** The maximal runs of letters and digits, lower-cased, in order. */
  function Words(s: string): seq<string> {
    if |s| == 0 then []
    else if !IsAlnum(s[0]) then Words(s[1..])
    else if |s| > 1 && IsAlnum(s[1]) then
      var rest := Words(s[1..]);
      if |rest| == 0 then [[Lower(s[0])]] else [[Lower(s[0])] + rest[0]] + rest[1..]
    else [[Lower(s[0])]] + Words(s[1..])
  }

  function JoinWords(words: seq<string>): string {
    if |words| == 0 then "" else if |words| == 1 then words[0] else words[0] + "-" + JoinWords(words[1..])
  }

  lemma LowerIsSlugChar(c: char)
    ensures IsSlugChar(Lower(c)) <==> IsAlnum(c)
    ensures 'A' <= c <= 'Z' ==> Lower(c) as int == c as int + 32
    ensures !('A' <= c <= 'Z') ==> Lower(c) == c
  {
  }

  lemma {:induction false} StripLeftHyphenated(s: string)
    ensures StripLeft(Hyphenate(s, false)) == Hyphenate(s, true)
  {
    if |s| > 0 && !IsSlugChar(s[0]) {
      HyphenateShape(s[1..], true);
      assert ("-" + Hyphenate(s[1..], true))[1..] == Hyphenate(s[1..], true);
    }
  }

  /** Letters in front of a text that does not strip to nothing stay in front. */
  lemma {:induction false} StripRightPrefix(a: string, s: string)
    requires |a| > 0 && a[|a| - 1] != '-'
    ensures StripRight(a + s) == a + StripRight(s)
  {
    if |s| > 0 && s[|s| - 1] == '-' {
      assert (a + s)[..|a + s| - 1] == a + s[..|s| - 1];
      StripRightPrefix(a, s[..|s| - 1]);
    } else if |s| == 0 {
      assert a + s == a;
    }
  }

  lemma StripRightHyphen(c: char, t: string)
    requires c != '-'
    ensures StripRight("-" + ([c] + t)) == "-" + StripRight([c] + t)
  {
    StripRightPrefix("-" + [c], t);
    StripRightPrefix([c], t);
    assert "-" + ([c] + t) == ("-" + [c]) + t;
    assert "-" + ([c] + StripRight(t)) == ("-" + [c]) + StripRight(t);
  }

  lemma StripRightLoneHyphen()
    ensures StripRight("-" + "") == ""
  {
    assert "-" + "" == "-" && "-"[..0] == "";
  }

  lemma {:induction false} WordsOfHyphenated(s: string)
    ensures StripRight(Hyphenate(LowerAll(s), true)) == JoinWords(Words(s))
    ensures Words(s) == [] <==> Hyphenate(LowerAll(s), true) == ""
    ensures forall i :: 0 <= i < |Words(s)| ==> Words(s)[i] != ""
  {
    if |s| > 0 {
      var low, c := LowerAll(s), Lower(s[0]);
      LowerIsSlugChar(s[0]);
      WordsOfHyphenated(s[1..]);
      assert low[1..] == LowerAll(s[1..]) && low[0] == c;
      if IsAlnum(s[0]) {
        AfterLetter(s);
      }
    }
  }

  /** What the hyphenated rest strips to is the words of the rest. */
  ghost predicate RestJoins(s: string) {
    && StripRight(Hyphenate(LowerAll(s), true)) == JoinWords(Words(s))
    && (Words(s) == [] <==> Hyphenate(LowerAll(s), true) == "")
  }

  /** A letter in front goes on with the word behind it, or begins one of its own. */
  lemma AfterLetter(s: string)
    requires |s| > 0 && IsAlnum(s[0]) && RestJoins(s[1..])
    ensures StripRight(Hyphenate(LowerAll(s), true)) == JoinWords(Words(s))
  {
    var c, tail := Lower(s[0]), LowerAll(s[1..]);
    LowerIsSlugChar(s[0]);
    assert LowerAll(s)[0] == c && LowerAll(s)[1..] == tail;
    assert Hyphenate(LowerAll(s), true) == [c] + Hyphenate(tail, false);
    StripRightPrefix([c], Hyphenate(tail, false));
    if |s| == 1 {
      assert Words(s[1..]) == [];
    } else if IsAlnum(s[1]) {
      LetterGoesOn(s[1..], c);
    } else {
      LetterBeforeGap(s[1..], c);
    }
  }

  lemma JoinHead(c: char, words: seq<string>)
    requires |words| > 0
    ensures JoinWords([[c] + words[0]] + words[1..]) == [c] + JoinWords(words)
  {
    JoinCons([c] + words[0], words[1..]);
    JoinCons(words[0], words[1..]);
    assert words == [words[0]] + words[1..];
    Associates([c], words[0], "-");
    Associates([c], words[0] + "-", JoinWords(words[1..]));
  }

  lemma Associates(a: string, b: string, c: string)
    ensures a + (b + c) == (a + b) + c
  {
  }

  lemma JoinCons(word: string, words: seq<string>)
    ensures JoinWords([word] + words) == if words == [] then word else word + "-" + JoinWords(words)
  {
    assert ([word] + words)[1..] == words;
  }

  lemma LetterGoesOn(rest: string, c: char)
    requires |rest| > 0 && IsAlnum(rest[0]) && RestJoins(rest)
    ensures |Words(rest)| > 0
    ensures [c] + StripRight(Hyphenate(LowerAll(rest), false))
            == JoinWords([[c] + Words(rest)[0]] + Words(rest)[1..])
  {
    LowerIsSlugChar(rest[0]);
    assert Hyphenate(LowerAll(rest), false) == Hyphenate(LowerAll(rest), true);
    JoinHead(c, Words(rest));
  }

  lemma GapStrips(h: string)
    requires |h| > 0 ==> IsSlugChar(h[0])
    ensures StripRight("-" + h) == if h == "" then "" else "-" + StripRight(h)
  {
    if h == "" {
      StripRightLoneHyphen();
    } else {
      assert h == [h[0]] + h[1..];
      StripRightHyphen(h[0], h[1..]);
    }
  }

  lemma LetterBeforeGap(rest: string, c: char)
    requires |rest| > 0 && !IsAlnum(rest[0]) && RestJoins(rest)
    ensures [c] + StripRight(Hyphenate(LowerAll(rest), false)) == JoinWords([[c]] + Words(rest))
  {
    var low := LowerAll(rest);
    LowerIsSlugChar(rest[0]);
    HyphenateShape(low[1..], true);
    assert Hyphenate(low, false) == "-" + Hyphenate(low, true);
    GapStrips(Hyphenate(low, true));
    JoinCons([c], Words(rest));
    Associates([c], "-", JoinWords(Words(rest)));
  }

  /** The slug is the words joined by single hyphens, or "page" when there are none. */
  lemma SlugifyJoinsWords(text: string)
    ensures Slugify(text) == if Words(text) == [] then "page" else JoinWords(Words(text))
  {
    StripLeftHyphenated(LowerAll(text));
    WordsOfHyphenated(text);
  }

  // ---- Slugs in use ----

  /** The documents' slugs by document id; None for a document that is not a page. */
  type Documents = map<nat, Option<string>>

  datatype SlugError = Reserved | InUse

  predicate Holds(docs: Documents, d: nat, slug: string) {
    d in docs && docs[d] == Some(slug)
  }

  /** Some document other than the excluded one holds the slug. */
  ghost predicate Taken(docs: Documents, slug: string, exclude: Option<nat>) {
    exists d: nat :: Holds(docs, d, slug) && exclude != Some(d)
  }

  function TakenSlugs(docs: Documents, exclude: Option<nat>): (s: set<string>)
    ensures forall slug :: slug in s <==> Taken(docs, slug, exclude)
  {
    set d | d in docs && docs[d].Some? && exclude != Some(d) :: docs[d].value
  }

  // ---- `ensure_unique_slug` ----

  function Numbered(slug: string, n: nat): string {
    slug + "-" + ShowNat(n)
  }

  /** The candidate of round n: the base (or base-page when the base is reserved), then base-2, base-3, ... */
  function Candidate(reserved: set<string>, slug: string, n: nat): string
    requires n >= 1
  {
    if n > 1 then Numbered(slug, n) else if slug in reserved then slug + "-" + "page" else slug
  }

  lemma CandidatesDiffer(reserved: set<string>, slug: string, m: nat, n: nat)
    requires 1 <= m < n
    ensures Candidate(reserved, slug, m) != Candidate(reserved, slug, n)
  {
    var a, b := Candidate(reserved, slug, m), Candidate(reserved, slug, n);
    assert b[|slug| + 1..] == ShowNat(n);
    if m > 1 {
      if a == b {
        assert a[|slug| + 1..] == ShowNat(m);
        ReadShowNat(m);
        ReadShowNat(n);
      }
    } else if slug in reserved {
      assert a[|slug| + 1] == 'p';
      assert b[|slug| + 1] == ShowNat(n)[0] && IsDigit(ShowNat(n)[0]);
    } else {
      assert |b| > |slug|;
    }
  }

  function Tried(reserved: set<string>, slug: string, n: nat): set<string>
    requires n >= 1
  {
    set m | 1 <= m < n :: Candidate(reserved, slug, m)
  }

  /** Pigeonhole: n - 1 rounds try n - 1 different names. */
  lemma {:induction false} TriedCount(reserved: set<string>, slug: string, n: nat)
    requires n >= 1
    ensures |Tried(reserved, slug, n)| == n - 1
  {
    if n == 1 {
      assert Tried(reserved, slug, 1) == {};
    } else {
      TriedCount(reserved, slug, n - 1);
      assert Tried(reserved, slug, n) == Tried(reserved, slug, n - 1) + {Candidate(reserved, slug, n - 1)};
      assert Candidate(reserved, slug, n - 1) !in Tried(reserved, slug, n - 1) by {
        forall m | 1 <= m < n - 1
          ensures Candidate(reserved, slug, m) != Candidate(reserved, slug, n - 1)
        {
          CandidatesDiffer(reserved, slug, m, n - 1);
        }
      }
    }
  }

  /**
   * Ends after at most one round more than there are taken and reserved names, with an unreserved slug that
   * no other document holds: the first such candidate.
   */
  method EnsureUniqueSlug(docs: Documents, reserved: set<string>, text: string, exclude: Option<nat>)
    returns (slug: string, rounds: nat)
    ensures slug !in reserved && !Taken(docs, slug, exclude) && IsSlug(slug)
    ensures 1 <= rounds <= |TakenSlugs(docs, exclude) + reserved| + 1
    ensures slug == Candidate(reserved, Slugify(text), rounds)
    ensures rounds == 1 ==> slug == if Slugify(text) in reserved then Slugify(text) + "-page" else Slugify(text)
    ensures rounds > 1 ==> slug == Slugify(text) + "-" + ShowNat(rounds)
    ensures forall m :: 1 <= m < rounds ==>
              || Candidate(reserved, Slugify(text), m) in reserved
              || Taken(docs, Candidate(reserved, Slugify(text), m), exclude)
  {
    var wanted := Slugify(text);
    var names := TakenSlugs(docs, exclude);
    ghost var blocked := names + reserved;
    slug := if wanted !in reserved then wanted else wanted + "-" + "page";
    rounds := 1;
    CandidateIsSlug(reserved, text, 1);
    while slug in reserved || slug in names
      invariant rounds >= 1 && slug == Candidate(reserved, wanted, rounds) && IsSlug(slug)
      invariant forall m :: 1 <= m < rounds ==> Candidate(reserved, wanted, m) in blocked
      invariant rounds <= |blocked| + 1
      decreases |blocked| + 1 - rounds
    {
      rounds := rounds + 1;
      slug := wanted + "-" + ShowNat(rounds);
      RoundsBounded(reserved, wanted, rounds, blocked);
      CandidateIsSlug(reserved, text, rounds);
    }
  }

  lemma RoundsBounded(reserved: set<string>, slug: string, n: nat, blocked: set<string>)
    requires n >= 1 && forall m :: 1 <= m < n ==> Candidate(reserved, slug, m) in blocked
    ensures n <= |blocked| + 1
  {
    TriedCount(reserved, slug, n);
    SubsetCount(Tried(reserved, slug, n), blocked);
  }

  lemma CandidateIsSlug(reserved: set<string>, text: string, n: nat)
    requires n >= 1
    ensures IsSlug(Candidate(reserved, Slugify(text), n))
  {
    SlugifyIsSlug(text);
    if n > 1 {
      SuffixKeepsSlug(Slugify(text), ShowNat(n));
    } else {
      SuffixKeepsSlug(Slugify(text), "page");
    }
  }

  lemma SuffixKeepsSlug(s: string, suffix: string)
    requires IsSlug(s) && |suffix| > 0 && forall i :: 0 <= i < |suffix| ==> IsSlugChar(suffix[i])
    ensures IsSlug(s + "-" + suffix)
  {
    var t, n := s + "-" + suffix, |s|;
    assert t[n] == '-' && forall i :: 0 <= i < n ==> t[i] == s[i];
    assert forall i :: n < i < |t| ==> IsSlugChar(t[i]) && t[i] == suffix[i - n - 1];
    assert IsSlugChar(t[n - 1]);
  }

  // ---- `validate_slug`, create and update ----

  function ValidateSlug(docs: Documents, raw: string, exclude: Option<nat>): Result<string, SlugError> {
    var slug := Slugify(raw);
    if slug in RESERVED_SLUGS then Err(Reserved)
    else if slug in TakenSlugs(docs, exclude) then Err(InUse)
    else Ok(slug)
  }

  /** What a request says about the slug: nothing, null, or a text. */
  datatype SlugField = Absent | Null | Text(raw: string)

  datatype Edit = Create(id: nat, slug: SlugField) | Update(id: nat, slug: SlugField)

  /** A non-empty text is validated; an empty one is stored as it is. The unique column refuses a second holder. */
  function NewSlug(docs: Documents, field: SlugField, stored: Option<string>, exclude: Option<nat>)
    : Result<Option<string>, SlugError>
  {
    match field
    case Absent => Ok(stored)
    case Null => Ok(None)
    case Text(raw) =>
      if raw == "" then (if "" in TakenSlugs(docs, exclude) then Err(InUse) else Ok(Some("")))
      else
        var r := ValidateSlug(docs, raw, exclude);
        if r.Ok? then Ok(Some(r.value)) else Err(r.error)
  }

  function ApplyEdit(docs: Documents, e: Edit): Documents {
    match e
    case Create(id, field) =>
      if id in docs then docs
      else
        var r := NewSlug(docs, field, None, None);
        if r.Ok? then docs[id := r.value] else docs
    case Update(id, field) =>
      if id !in docs then docs
      else
        var r := NewSlug(docs, field, docs[id], Some(id));
        if r.Ok? then docs[id := r.value] else docs
  }

  class DocumentTable {
    var docs: Documents

    constructor ()
      ensures docs == map[]
    {
      docs := map[];
    }

    /** `create_document`; the database hands out a fresh id. */
    method CreateDocument(id: nat, field: SlugField) returns (r: Result<Option<string>, SlugError>)
      requires id !in docs
      modifies this
      ensures docs == ApplyEdit(old(docs), Create(id, field))
      ensures r.Ok? ==> id in docs && docs[id] == r.value
      ensures r.Err? ==> docs == old(docs)
    {
      r := NewSlug(docs, field, None, None);
      if r.Ok? {
        docs := docs[id := r.value];
      }
    }

    /** `update_document`; the row being updated may keep its own slug. */
    method UpdateDocument(id: nat, field: SlugField) returns (found: bool, r: Result<Option<string>, SlugError>)
      modifies this
      ensures docs == ApplyEdit(old(docs), Update(id, field))
      ensures found == (id in old(docs))
      ensures found && r.Ok? ==> docs[id] == r.value
      ensures found && r.Err? ==> docs == old(docs)
    {
      found, r := id in docs, Ok(None);
      if found {
        r := NewSlug(docs, field, docs[id], Some(id));
        if r.Ok? {
          docs := docs[id := r.value];
        }
      }
    }
  }

  function Run(edits: seq<Edit>): Documents {
    if |edits| == 0 then map[] else ApplyEdit(Run(edits[..|edits| - 1]), edits[|edits| - 1])
  }

  /** Slugs are pairwise distinct, and every non-empty one is normalised and shadows no built-in route. */
  ghost predicate SlugsSound(docs: Documents) {
    && (forall d, e, slug :: Holds(docs, d, slug) && Holds(docs, e, slug) ==> d == e)
    && (forall d, slug :: Holds(docs, d, slug) && slug != "" ==> IsSlug(slug) && slug !in RESERVED_SLUGS)
  }

  /** A slug that a request sets is free and, if not empty, a sound one; it is refused only when reserved or taken. */
  lemma NewSlugIsSound(docs: Documents, raw: string, stored: Option<string>, exclude: Option<nat>)
    ensures var r := NewSlug(docs, Text(raw), stored, exclude);
            r.Ok? ==>
              && r.value.Some? && !Taken(docs, r.value.value, exclude)
              && (r.value.value != "" ==> IsSlug(r.value.value) && r.value.value !in RESERVED_SLUGS)
    ensures raw != "" ==>
              var slug := Slugify(raw);
              var r := NewSlug(docs, Text(raw), stored, exclude);
              && (r == Ok(Some(slug)) <==> slug !in RESERVED_SLUGS && !Taken(docs, slug, exclude))
              && (r.Err? <==> slug in RESERVED_SLUGS || Taken(docs, slug, exclude))
  {
    SlugifyIsSlug(raw);
  }

  /** What an edit makes of the slug field: a new document's slug, or the change to the one document it names. */
  lemma EditMeans(docs: Documents, id: nat, raw: string)
    ensures ApplyEdit(docs, Create(id, Absent)) == ApplyEdit(docs, Create(id, Null))
            == if id in docs then docs else docs[id := None]
    ensures ApplyEdit(docs, Update(id, Absent)) == docs
    ensures ApplyEdit(docs, Update(id, Null)) == if id in docs then docs[id := None] else docs
    ensures id !in docs ==> ApplyEdit(docs, Update(id, Text(raw))) == docs
    ensures var slug := Slugify(raw);
            raw != "" && id !in docs ==>
              ApplyEdit(docs, Create(id, Text(raw)))
              == if slug in RESERVED_SLUGS || Taken(docs, slug, None) then docs else docs[id := Some(slug)]
    ensures var slug := Slugify(raw);
            raw != "" && id in docs ==>
              ApplyEdit(docs, Update(id, Text(raw)))
              == if slug in RESERVED_SLUGS || Taken(docs, slug, Some(id)) then docs else docs[id := Some(slug)]
  {
    if id in docs {
      assert docs[id := docs[id]] == docs;
    }
  }

  lemma EditKeepsSlugs(docs: Documents, e: Edit)
    requires SlugsSound(docs)
    ensures SlugsSound(ApplyEdit(docs, e))
  {
    var after := ApplyEdit(docs, e);
    if after != docs {
      var exclude, stored := if e.Create? then None else Some(e.id), if e.Create? then None else docs[e.id];
      assert forall d, slug :: d != e.id ==> (Holds(after, d, slug) <==> Holds(docs, d, slug));
      if e.slug.Text? {
        NewSlugIsSound(docs, e.slug.raw, stored, exclude);
        assert forall d: nat, slug :: d != e.id && Holds(docs, d, slug) ==> Taken(docs, slug, exclude);
      } else {
        assert forall slug :: Holds(after, e.id, slug) ==> Holds(docs, e.id, slug);
      }
    }
  }

  /** Under any run of creates and updates the slugs stay sound. */
  lemma {:induction false} SlugsInEveryRun(edits: seq<Edit>)
    ensures SlugsSound(Run(edits))
  {
    if |edits| > 0 {
      SlugsInEveryRun(edits[..|edits| - 1]);
      EditKeepsSlugs(Run(edits[..|edits| - 1]), edits[|edits| - 1]);
    }
  }
}
