/** The profile page's goal filter over the peer suggestions: the filter
    text is normalised, widened by a small synonym table, and a suggestion
    is kept when one of its goals normalises into the resulting token set. */
module Profile {
  import opened Base

  // ---------------------------------------------------------------------
  // normalize

  /** The characters `/[^a-z0-9+#]/g` leaves in place. */
  predicate IsTokenChar(c: char)
  {
    ('a' <= c <= 'z') || ('0' <= c <= '9') || c == '+' || c == '#'
  }

  /** `normalize(s)`: falsy input gives ""; otherwise lower-case it and
      delete every character that is not a token character. */
  function Normalize(s: Option<string>): (r: string)
    ensures forall i :: 0 <= i < |r| ==> IsTokenChar(r[i])
    ensures s == None || s == Some("") ==> r == ""
  {
    if s == None || s == Some("") then "" else Keep(LowerAscii(s.value), IsTokenChar)
  }

  /** A character survives exactly when its lower-case form is a token character. */
  lemma NormalizeKeepsExactly(s: string, c: char)
    ensures c in Normalize(Some(s)) <==> IsTokenChar(c) && exists i | 0 <= i < |s| :: LowerChar(s[i]) == c
  {
    if s != "" {
      KeepMembership(LowerAscii(s), IsTokenChar, c);
      if c in LowerAscii(s) {
        var i :| 0 <= i < |s| && LowerAscii(s)[i] == c;
        assert LowerChar(s[i]) == c;
      }
      if exists i | 0 <= i < |s| :: LowerChar(s[i]) == c {
        var i :| 0 <= i < |s| && LowerChar(s[i]) == c;
        assert LowerAscii(s)[i] == c;
      }
    }
  }

  /** Normalising twice is normalising once. */
  lemma NormalizeIdempotent(s: Option<string>)
    ensures Normalize(Some(Normalize(s))) == Normalize(s)
  {
    var r := Normalize(s);
    if r != "" {
      assert LowerAscii(r) == r;
      KeepAll(r, IsTokenChar);
    }
  }

  /** A character that is not a token character once lower-cased is
      deleted, not turned into a separator: "Node.js" normalises like "Nodejs". */
  lemma NormalizeDeletesPunctuation(x: string, c: char, y: string)
    requires !IsTokenChar(LowerChar(c))
    ensures Normalize(Some(x + [c] + y)) == Normalize(Some(x + y))
  {
    var lx, ly := LowerAscii(x), LowerAscii(y);
    LowerAsciiAppend(x + [c], y);
    LowerAsciiAppend(x, [c]);
    LowerAsciiAppend(x, y);
    assert [c] != "" && LowerAscii([c]) == [LowerChar(c)];
    KeepDrops(lx, LowerChar(c), ly, IsTokenChar);
    assert Normalize(Some(x + [c] + y)) == Keep(lx + [LowerChar(c)] + ly, IsTokenChar);
    if x + y == "" {
      assert lx + ly == [];
    }
  }

  /** Normalising sees a character only through its lower-case form:
      with the lemma above, "Node.js" normalises like "nodejs". */
  lemma NormalizeFolds(x: string, c: char, y: string)
    ensures Normalize(Some(x + [c] + y)) == Normalize(Some(x + [LowerChar(c)] + y))
  {
    var a, b := x + [c] + y, x + [LowerChar(c)] + y;
    assert LowerAscii(a) == LowerAscii(b) by {
      forall i | 0 <= i < |a| ensures LowerAscii(a)[i] == LowerAscii(b)[i] {
        if i == |x| {
          assert a[i] == c && b[i] == LowerChar(c);
        } else {
          assert a[i] == b[i];
        }
      }
    }
  }

  lemma LowerAsciiAppend(a: string, b: string)
    ensures LowerAscii(a + b) == LowerAscii(a) + LowerAscii(b)
  {
    assert forall i :: 0 <= i < |a + b| ==> LowerAscii(a + b)[i] == (LowerAscii(a) + LowerAscii(b))[i];
  }

  lemma KeepDrops(a: string, c: char, b: string, p: char -> bool)
    requires !p(c)
    ensures Keep(a + [c] + b, p) == Keep(a + b, p)
  {
    KeepAppend(a + [c], b, p);
    KeepAppend(a, [c], p);
    KeepAppend(a, b, p);
    assert Keep([c], p) == [] by {
      assert [c][1..] == [];
    }
  }

  // ---------------------------------------------------------------------
  // GOAL_SYNONYMS

  /** The own properties of `GOAL_SYNONYMS`. */
  function Synonyms(token: string): Option<seq<string>>
  {
    match token
    case "golang" => Some(["go"])
    case "go" => Some(["golang"])
    case "javascript" => Some(["js"])
    case "js" => Some(["javascript"])
    case "typescript" => Some(["ts"])
    case "ts" => Some(["typescript"])
    case _ => None
  }

  predicate SynonymOf(a: string, b: string)
  {
    Synonyms(a).Some? && b in Synonyms(a).value
  }

  /** The table is symmetric. */
  lemma SynonymsSymmetric(a: string, b: string)
    ensures SynonymOf(a, b) <==> SynonymOf(b, a)
  {
  }

  /** What `GOAL_SYNONYMS[token]` yields: an own array, an inherited
      function or object (truthy, but without `forEach`), or `undefined`. */
  datatype Lookup = OwnList(items: seq<string>) | InheritedMember | Undefined

  function LookupSynonyms(token: string): (r: Lookup)
    ensures Synonyms(token).Some? ==> r == OwnList(Synonyms(token).value)
    ensures Synonyms(token).None? ==> (r == InheritedMember <==> token in INHERITED)
  {
    match Synonyms(token)
    case Some(items) => OwnList(items)
    case None => if token in INHERITED then InheritedMember else Undefined
  }

  // ---------------------------------------------------------------------
  // selectedGoalTokens

  /** The memoised token set: `null` for an empty filter, a set of tokens,
      or a `TypeError` thrown while building it. */
  datatype Tokens = NoFilter | TokenSet(tokens: set<string>) | Throws

  /** `selectedGoalTokens` as written. */
  function SelectedGoalTokens(goalFilter: string): (r: Tokens)
    ensures goalFilter == "" <==> r == NoFilter
    ensures r.TokenSet? ==> Normalize(Some(goalFilter)) in r.tokens
  {
    if goalFilter == "" then NoFilter
    else
      var token := Normalize(Some(goalFilter));
      match LookupSynonyms(token)
      case OwnList(items) => TokenSet({token} + set t | t in items)
      case Undefined => TokenSet({token})
      case InheritedMember => Throws
  }

  /** Away from inherited names, the tokens are the normalised filter plus its synonyms. */
  lemma TokensAreFilterAndSynonyms(goalFilter: string, t: string)
    requires goalFilter != ""
    requires Normalize(Some(goalFilter)) !in INHERITED
    ensures var r := SelectedGoalTokens(goalFilter);
      r.TokenSet? && (t in r.tokens <==> t == Normalize(Some(goalFilter)) || SynonymOf(Normalize(Some(goalFilter)), t))
  {
  }

  /** As written, a filter that normalises to "constructor" finds the
      inherited `Object` constructor, which has no `forEach`: the page throws. */
  lemma ConstructorFilterThrows()
    ensures SelectedGoalTokens("constructor") == Throws
  {
    NormalizeConstructor();
    LookupConstructor();
  }

  lemma NormalizeConstructor()
    ensures Normalize(Some("constructor")) == "constructor"
  {
    var w := "constructor";
    NormalizeOfTokens(w);
  }

  /** A non-empty string of token characters is its own normal form, and so
      is anything that lower-cases to it. */
  lemma NormalizeOfTokens(w: string)
    requires w != ""
    requires forall i :: 0 <= i < |w| ==> IsTokenChar(w[i])
    ensures Normalize(Some(w)) == w
  {
    assert LowerAscii(w) == w;
    KeepAll(w, IsTokenChar);
  }

  lemma LookupConstructor()
    ensures LookupSynonyms("constructor") == InheritedMember
  {
  }

  /** "constructor" is the only inherited name a normalised token can
      spell: every other one holds an underscore or a capital. */
  lemma OnlyConstructorIsSpellable(t: string)
    requires forall i :: 0 <= i < |t| ==> IsTokenChar(t[i])
    requires t in INHERITED
    ensures t == "constructor"
  {
    if t != "constructor" {
      NonTokenCharIn(t);
    }
  }

  lemma NonTokenCharIn(n: string)
    requires n in INHERITED - {"constructor"}
    ensures exists i | 0 <= i < |n| :: !IsTokenChar(n[i])
  {
    if n[0] == '_' {
      assert !IsTokenChar(n[0]);
    } else if n == "hasOwnProperty" {
      assert !IsTokenChar(n[3]);
    } else if n == "isPrototypeOf" || n == "toString" || n == "toLocaleString" {
      assert !IsTokenChar(n[2]);
    } else if n == "propertyIsEnumerable" {
      assert !IsTokenChar(n[8]);
    } else {
      assert !IsTokenChar(n[5]);
    }
  }

  /** Exactly the filters that normalise to "constructor" throw. */
  lemma ThrowsExactlyOnConstructor(goalFilter: string)
    ensures SelectedGoalTokens(goalFilter) == Throws <==>
      goalFilter != "" && Normalize(Some(goalFilter)) == "constructor"
  {
    var t := Normalize(Some(goalFilter));
    if goalFilter != "" && t in INHERITED {
      OnlyConstructorIsSpellable(t);
    }
    if goalFilter != "" && t == "constructor" {
      LookupConstructor();
    }
  }

  /** The evidently intended lookup: own properties only
      (`Object.hasOwn(GOAL_SYNONYMS, token)`). */
  function SelectedGoalTokensCorrected(goalFilter: string): (r: Tokens)
    ensures r != Throws
    ensures goalFilter == "" <==> r == NoFilter
    ensures r.TokenSet? ==> forall t :: t in r.tokens <==>
      t == Normalize(Some(goalFilter)) || SynonymOf(Normalize(Some(goalFilter)), t)
  {
    if goalFilter == "" then NoFilter
    else
      var token := Normalize(Some(goalFilter));
      match Synonyms(token)
      case Some(items) => TokenSet({token} + set t | t in items)
      case None => TokenSet({token})
  }

  /** The correction changes nothing where the original does not throw. */
  lemma CorrectionAgreesWhenNoThrow(goalFilter: string)
    requires SelectedGoalTokens(goalFilter) != Throws
    ensures SelectedGoalTokensCorrected(goalFilter) == SelectedGoalTokens(goalFilter)
  {
  }

  // ---------------------------------------------------------------------
  // filteredSuggestions

  /** A suggested peer; `goals` is `None` when it is not an array. */
  datatype Suggestion = Suggestion(id: UserId, name: string, goals: Option<seq<string>>)

  /** `Array.isArray(s.goals) && s.goals.some(g => tokens.has(normalize(g)))`. */
  predicate MatchesGoal(s: Suggestion, tokens: set<string>)
  {
    s.goals.Some? && exists i | 0 <= i < |s.goals.value| :: Normalize(Some(s.goals.value[i])) in tokens
  }

  /** `filteredSuggestions` given the token set (`None` for `null`). */
  function FilteredSuggestions(suggestions: seq<Suggestion>, tokens: Option<set<string>>): (r: seq<Suggestion>)
    ensures tokens.None? ==> r == suggestions
    ensures IsSubsequence(r, suggestions)
    ensures tokens.Some? ==> forall s :: s in r <==> s in suggestions && MatchesGoal(s, tokens.value)
    ensures tokens.Some? ==> forall s :: multiset(r)[s] == if MatchesGoal(s, tokens.value) then multiset(suggestions)[s] else 0
  {
    match tokens
    case None => SubsequenceRefl(suggestions); suggestions
    case Some(t) =>
      KeepIsSubsequence(suggestions, s => MatchesGoal(s, t));
      forall s ensures s in Keep(suggestions, s => MatchesGoal(s, t)) <==> s in suggestions && MatchesGoal(s, t) {
        KeepMembership(suggestions, s => MatchesGoal(s, t), s);
      }
      forall s ensures multiset(Keep(suggestions, s => MatchesGoal(s, t)))[s] == if MatchesGoal(s, t) then multiset(suggestions)[s] else 0 {
        KeepMultiplicity(suggestions, s => MatchesGoal(s, t), s);
      }
      Keep(suggestions, s => MatchesGoal(s, t))
  }

  /** Subsequence is reflexive. */
  lemma {:induction false} SubsequenceRefl<T>(s: seq<T>)
    ensures IsSubsequence(s, s)
  {
    if s != [] {
      SubsequenceRefl(s[1..]);
    }
  }

  /** The list the page renders for a filter text, or `None` when building
      the token set throws. */
  function GoalFilterView(suggestions: seq<Suggestion>, goalFilter: string): (r: Option<seq<Suggestion>>)
    ensures goalFilter == "" ==> r == Some(suggestions)
    ensures r.None? <==> SelectedGoalTokens(goalFilter) == Throws
  {
    match SelectedGoalTokens(goalFilter)
    case NoFilter => Some(FilteredSuggestions(suggestions, None))
    case TokenSet(t) => Some(FilteredSuggestions(suggestions, Some(t)))
    case Throws => None
  }

  /** With the corrected lookup the page always renders a list. */
  function GoalFilterViewCorrected(suggestions: seq<Suggestion>, goalFilter: string): (r: seq<Suggestion>)
    ensures goalFilter == "" ==> r == suggestions
    ensures IsSubsequence(r, suggestions)
  {
    match SelectedGoalTokensCorrected(goalFilter)
    case NoFilter => FilteredSuggestions(suggestions, None)
    case TokenSet(t) => FilteredSuggestions(suggestions, Some(t))
  }
}
