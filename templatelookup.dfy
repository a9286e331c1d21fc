/**
 * Template lookup: the two searchers that turn user search terms into an
 * ordered list of component matches.
 *
 * - TemplateSearcher lists the templates of each configured namespace
 *   through a template client, scores every template against the terms and
 *   stops after the first namespace that produced an exact (score 0) match.
 * - TemplateFileSearcher decodes every term as a file holding one template.
 *
 * The template client, the file decoder and the template scorer are
 * collaborators outside this model; they are given as functions.
 */
module TemplateLookup {

  datatype Option<+T> = None | Some(value: T)

  // ---------------------------------------------------------------------
  // Data model
  // ---------------------------------------------------------------------

  /** A stored template. `tags` stands for the descriptive fields the scorer may read. */
  datatype Template = Template(name: string, namespace: string, tags: seq<string>)

  /** What the template client reports when asked to list one namespace. */
  datatype ListResult =
    | Listed(items: seq<Template>)
    | NotFound
    | Forbidden
    | Failed(cause: string)

  /** The single object a file decodes to: a template or some other kind of object. */
  datatype Object = TemplateObject(template: Template) | OtherObject(kind: string)

  /** What the resource builder reports for one file term. */
  datatype DecodeResult = DecodeFailed | Decoded(singular: bool, obj: Object)

  /** The template scorer: `Some(score)` when the term scores against the template. */
  type Scorer = (Template, string) -> Option<real>

  /** One candidate resolution of a search term to a template. */
  datatype ComponentMatch = ComponentMatch(
    value: string,
    argument: string,
    name: string,
    description: string,
    score: real,
    template: Template)

  /** The errors a search can return. */
  datatype SearchError =
    | ListFailed(cause: string)      // a listing error other than not-found or forbidden
    | MultipleObjects(term: string)  // "there is more than one object in <term>"
    | NotATemplate(term: string)     // "object in <term> is not a template"

  datatype Result<+T> = Ok(value: T) | Err(error: SearchError)

  /** The `%q` rendering of a string, without escaping. */
  function Quote(s: string): string {
    "\"" + s + "\""
  }

  /** Prefixes the matches of a successful result; an error passes through. */
  function Prepend(ms: seq<ComponentMatch>, r: Result<seq<ComponentMatch>>): Result<seq<ComponentMatch>> {
    if r.Ok? then Ok(ms + r.value) else r
  }

  lemma PrependNothing(r: Result<seq<ComponentMatch>>)
    ensures Prepend([], r) == r
  {
    if r.Ok? {
      assert [] + r.value == r.value;
    }
  }

  lemma PrependPrepend(a: seq<ComponentMatch>, b: seq<ComponentMatch>, r: Result<seq<ComponentMatch>>)
    ensures Prepend(a, Prepend(b, r)) == Prepend(a + b, r)
  {
    if r.Ok? {
      assert a + (b + r.value) == a + b + r.value;
    }
  }

  predicate HasExactMatch(ms: seq<ComponentMatch>) {
    exists m :: m in ms && m.score == 0.0
  }

  lemma HasExactMatchAppend(a: seq<ComponentMatch>, b: seq<ComponentMatch>)
    ensures HasExactMatch(a + b) <==> HasExactMatch(a) || HasExactMatch(b)
  {
    if HasExactMatch(a + b) {
      var m :| m in a + b && m.score == 0.0;
      assert m in a || m in b;
    }
    if HasExactMatch(b) {
      var m :| m in b && m.score == 0.0;
      assert m in a + b;
    }
  }

  // ---------------------------------------------------------------------
  // Scoring one template against the terms
  // ---------------------------------------------------------------------

  /** The index of the first term, in term order, that the scorer matches against `t`. */
  function FirstScoringTerm(scorer: Scorer, t: Template, terms: seq<string>): (k: Option<nat>)
    ensures k.Some? ==> k.value < |terms| && scorer(t, terms[k.value]).Some?
    ensures k.Some? ==> forall j :: 0 <= j < k.value ==> scorer(t, terms[j]).None?
    ensures k.None? <==> forall j :: 0 <= j < |terms| ==> scorer(t, terms[j]).None?
  {
    if terms == [] then None
    else if scorer(t, terms[0]).Some? then Some(0)
    else
      match FirstScoringTerm(scorer, t, terms[1..])
      case None => None
      case Some(k) => Some(k + 1)
  }

  /** The match recorded for template `t` of a listed namespace. */
  function TemplateMatch(t: Template, term: string, score: real): ComponentMatch {
    ComponentMatch(
      term,
      "--template=" + Quote(t.name),
      t.name,
      "Template " + Quote(t.name) + " in project " + Quote(t.namespace),
      score,
      t)
  }

  /** The at most one match a template yields: the first term that scores wins. */
  function MatchTemplate(scorer: Scorer, t: Template, terms: seq<string>): (m: Option<ComponentMatch>)
    ensures m.Some? <==> exists k :: 0 <= k < |terms| && scorer(t, terms[k]).Some?
    ensures m.Some? ==>
      && m.value.template == t
      && m.value.name == t.name
      && m.value.argument == "--template=" + Quote(t.name)
      && m.value.description == "Template " + Quote(t.name) + " in project " + Quote(t.namespace)
      && scorer(t, m.value.value) == Some(m.value.score)
      && exists k :: 0 <= k < |terms| && terms[k] == m.value.value
           && forall j :: 0 <= j < k ==> scorer(t, terms[j]).None?
  {
    match FirstScoringTerm(scorer, t, terms)
    case None => None
    case Some(k) => Some(TemplateMatch(t, terms[k], scorer(t, terms[k]).value))
  }

  /** The match of `t` when the terms before index `j` do not score and the term at `j` does, or `j` is past the end. */
  lemma MatchTemplateAt(scorer: Scorer, t: Template, terms: seq<string>, j: nat)
    requires j <= |terms|
    requires forall k :: 0 <= k < j ==> scorer(t, terms[k]).None?
    requires j < |terms| ==> scorer(t, terms[j]).Some?
    ensures j == |terms| ==> MatchTemplate(scorer, t, terms) == None
    ensures j < |terms| ==> MatchTemplate(scorer, t, terms) == Some(TemplateMatch(t, terms[j], scorer(t, terms[j]).value))
    ensures j < |terms| ==> (HasExactMatch(OptionToSeq(MatchTemplate(scorer, t, terms))) <==> scorer(t, terms[j]).value == 0.0)
    ensures j == |terms| ==> !HasExactMatch(OptionToSeq(MatchTemplate(scorer, t, terms)))
  {
    if j < |terms| {
      assert FirstScoringTerm(scorer, t, terms) == Some(j);
      var m := TemplateMatch(t, terms[j], scorer(t, terms[j]).value);
      assert m in [m];
    }
  }

  /** The matches of one namespace's templates, in template order. */
  function NamespaceMatches(scorer: Scorer, templates: seq<Template>, terms: seq<string>): (ms: seq<ComponentMatch>)
    ensures |ms| <= |templates|
  {
    if templates == [] then []
    else
      NamespaceMatches(scorer, templates[..|templates| - 1], terms)
        + OptionToSeq(MatchTemplate(scorer, templates[|templates| - 1], terms))
  }

  /**
   * Every match of a namespace is the match of one of its templates, and
   * every template that has a match contributes it.
   */
  lemma {:induction false} NamespaceMatchesMembers(scorer: Scorer, templates: seq<Template>, terms: seq<string>)
    ensures var ms := NamespaceMatches(scorer, templates, terms);
      && (forall m :: m in ms ==> m.template in templates && MatchTemplate(scorer, m.template, terms) == Some(m))
      && (forall t :: t in templates && MatchTemplate(scorer, t, terms).Some? ==> MatchTemplate(scorer, t, terms).value in ms)
    decreases |templates|
  {
    if templates != [] {
      var init, last := templates[..|templates| - 1], templates[|templates| - 1];
      NamespaceMatchesMembers(scorer, init, terms);
      assert templates == init + [last];
      assert forall t :: t in templates ==> t in init || t == last;
    }
  }

  function OptionToSeq(o: Option<ComponentMatch>): seq<ComponentMatch> {
    match o
    case None => []
    case Some(m) => [m]
  }

  /** The matches a listing outcome contributes; not-found, forbidden and failures contribute none. */
  function ListingMatches(scorer: Scorer, lr: ListResult, terms: seq<string>): seq<ComponentMatch> {
    match lr
    case Listed(items) => NamespaceMatches(scorer, items, terms)
    case _ => []
  }

  lemma {:induction false} NamespaceMatchesAppend(scorer: Scorer, a: seq<Template>, b: seq<Template>, terms: seq<string>)
    ensures NamespaceMatches(scorer, a + b, terms) == NamespaceMatches(scorer, a, terms) + NamespaceMatches(scorer, b, terms)
    decreases |b|
  {
    if b == [] {
      assert a + b == a;
    } else {
      var b', last := b[..|b| - 1], b[|b| - 1];
      assert (a + b)[..|a + b| - 1] == a + b';
      assert (a + b)[|a + b| - 1] == last;
      var tail := OptionToSeq(MatchTemplate(scorer, last, terms));
      calc {
        NamespaceMatches(scorer, a + b, terms);
        NamespaceMatches(scorer, a + b', terms) + tail;
        { NamespaceMatchesAppend(scorer, a, b', terms); }
        NamespaceMatches(scorer, a, terms) + NamespaceMatches(scorer, b', terms) + tail;
        NamespaceMatches(scorer, a, terms) + (NamespaceMatches(scorer, b', terms) + tail);
        NamespaceMatches(scorer, a, terms) + NamespaceMatches(scorer, b, terms);
      }
    }
  }

  lemma NamespaceMatchesStep(scorer: Scorer, templates: seq<Template>, i: nat, terms: seq<string>)
    requires i < |templates|
    ensures NamespaceMatches(scorer, templates[..i + 1], terms)
         == NamespaceMatches(scorer, templates[..i], terms) + OptionToSeq(MatchTemplate(scorer, templates[i], terms))
  {
    assert templates[..i + 1][..i] == templates[..i];
    assert templates[..i + 1][i] == templates[i];
  }

  lemma NamespaceMatchesSingle(scorer: Scorer, t: Template, terms: seq<string>)
    ensures NamespaceMatches(scorer, [t], terms) == OptionToSeq(MatchTemplate(scorer, t, terms))
  {
    assert [t][..0] == [];
  }

  // ---------------------------------------------------------------------
  // TemplateSearcher: specification
  // ---------------------------------------------------------------------

  /** The result of a namespace search, with the namespaces it asked the client to list, in order. */
  datatype Outcome = Outcome(result: Result<seq<ComponentMatch>>, listed: seq<string>)

  /**
   * The search over `namespaces`, having already checked the namespaces in `checked`.
   */
  function SearchFrom(client: string -> ListResult, scorer: Scorer, terms: seq<string>,
                      namespaces: seq<string>, checked: set<string>): Outcome
    decreases |namespaces|
  {
    if namespaces == [] then Outcome(Ok([]), [])
    else
      var ns := namespaces[0];
      if ns in checked then SearchFrom(client, scorer, terms, namespaces[1..], checked)
      else
        match client(ns)
        case Failed(cause) => Outcome(Err(ListFailed(cause)), [ns])
        case Listed(items) =>
          var ms := NamespaceMatches(scorer, items, terms);
          if HasExactMatch(ms) then Outcome(Ok(ms), [ns])
          else
            var rest := SearchFrom(client, scorer, terms, namespaces[1..], checked + {ns});
            Outcome(Prepend(ms, rest.result), [ns] + rest.listed)
        case _ =>
          var rest := SearchFrom(client, scorer, terms, namespaces[1..], checked + {ns});
          Outcome(rest.result, [ns] + rest.listed)
  }

  /** A search's outcome after `acc` has been matched and `accListed` listed. */
  function Extend(acc: seq<ComponentMatch>, accListed: seq<string>, o: Outcome): Outcome {
    Outcome(Prepend(acc, o.result), accListed + o.listed)
  }

  lemma ExtendExtend(a: seq<ComponentMatch>, la: seq<string>, b: seq<ComponentMatch>, lb: seq<string>, o: Outcome)
    ensures Extend(a, la, Extend(b, lb, o)) == Extend(a + b, la + lb, o)
  {
    PrependPrepend(a, b, o.result);
    assert la + (lb + o.listed) == la + lb + o.listed;
  }

  /** The namespaces of `namespaces` not in `seen`, each once, in order of first occurrence. */
  function Dedup(namespaces: seq<string>, seen: set<string>): (d: seq<string>)
    ensures forall i, j :: 0 <= i < j < |d| ==> d[i] != d[j]
    ensures forall n :: n in d <==> n in namespaces && n !in seen
    decreases |namespaces|
  {
    if namespaces == [] then []
    else if namespaces[0] in seen then Dedup(namespaces[1..], seen)
    else [namespaces[0]] + Dedup(namespaces[1..], seen + {namespaces[0]})
  }

  /** The matches the listed namespaces contribute, in listing order. */
  function Gather(client: string -> ListResult, scorer: Scorer, terms: seq<string>, listed: seq<string>): seq<ComponentMatch> {
    if listed == [] then []
    else ListingMatches(scorer, client(listed[0]), terms) + Gather(client, scorer, terms, listed[1..])
  }

  // ---------------------------------------------------------------------
  // TemplateSearcher: properties of the specification
  // ---------------------------------------------------------------------

  /**
   * The namespaces listed are a prefix of the distinct unchecked namespaces in
   * configuration order; all of them are listed unless an error or an exact
   * match ended the search.
   */
  lemma {:induction false} ListedIsPrefixOfDedup(client: string -> ListResult, scorer: Scorer, terms: seq<string>,
                                                 namespaces: seq<string>, checked: set<string>)
    ensures var o := SearchFrom(client, scorer, terms, namespaces, checked);
      && o.listed <= Dedup(namespaces, checked)
      && (o.result.Ok? && !HasExactMatch(o.result.value) ==> o.listed == Dedup(namespaces, checked))
    decreases |namespaces|
  {
    if namespaces != [] {
      var ns := namespaces[0];
      if ns in checked {
        ListedIsPrefixOfDedup(client, scorer, terms, namespaces[1..], checked);
      } else {
        ListedIsPrefixOfDedup(client, scorer, terms, namespaces[1..], checked + {ns});
        var rest := SearchFrom(client, scorer, terms, namespaces[1..], checked + {ns});
        if client(ns).Listed? {
          var ms := NamespaceMatches(scorer, client(ns).items, terms);
          if !HasExactMatch(ms) && rest.result.Ok? && !HasExactMatch(rest.result.value) {
            assert !HasExactMatch(ms + rest.result.value);
          }
          if rest.result.Ok? && !HasExactMatch(ms + rest.result.value) {
            assert !HasExactMatch(ms) && !HasExactMatch(rest.result.value) by {
              forall m | m in rest.result.value ensures m in ms + rest.result.value { }
            }
          }
        }
      }
    }
  }

  /** A listing failure other than not-found or forbidden ends the search with that error and no matches. */
  lemma {:induction false} SearchFailsIffListingFailed(client: string -> ListResult, scorer: Scorer, terms: seq<string>,
                                                       namespaces: seq<string>, checked: set<string>)
    ensures var o := SearchFrom(client, scorer, terms, namespaces, checked);
      && (o.result.Err? <==> |o.listed| > 0 && client(o.listed[|o.listed| - 1]).Failed?)
      && (o.result.Err? ==> o.result.error == ListFailed(client(o.listed[|o.listed| - 1]).cause))
      && (forall j :: 0 <= j < |o.listed| - 1 ==> !client(o.listed[j]).Failed?)
    decreases |namespaces|
  {
    if namespaces != [] {
      var ns := namespaces[0];
      if ns in checked {
        SearchFailsIffListingFailed(client, scorer, terms, namespaces[1..], checked);
      } else {
        SearchFailsIffListingFailed(client, scorer, terms, namespaces[1..], checked + {ns});
      }
    }
  }

  /**
   * On success the matches are those of the listed namespaces, namespace by
   * namespace in listing order; a not-found or forbidden namespace adds none.
   */
  lemma {:induction false} SearchGathersListedNamespaces(client: string -> ListResult, scorer: Scorer, terms: seq<string>,
                                                         namespaces: seq<string>, checked: set<string>)
    ensures var o := SearchFrom(client, scorer, terms, namespaces, checked);
      o.result.Ok? ==> o.result.value == Gather(client, scorer, terms, o.listed)
    decreases |namespaces|
  {
    if namespaces != [] {
      var ns := namespaces[0];
      if ns in checked {
        SearchGathersListedNamespaces(client, scorer, terms, namespaces[1..], checked);
      } else {
        SearchGathersListedNamespaces(client, scorer, terms, namespaces[1..], checked + {ns});
      }
    }
  }

  /** No namespace of `listed` but the last one has an exact match. */
  predicate NoExactBeforeLast(client: string -> ListResult, scorer: Scorer, terms: seq<string>, listed: seq<string>) {
    forall j :: 0 <= j < |listed| - 1 ==> !HasExactMatch(ListingMatches(scorer, client(listed[j]), terms))
  }

  /**
   * Only the last namespace listed can hold an exact match: a namespace with
   * an exact match ends the search, whatever the searcher's StopOnMatch says.
   */
  lemma {:induction false} ExactMatchEndsSearch(client: string -> ListResult, scorer: Scorer, terms: seq<string>,
                                                namespaces: seq<string>, checked: set<string>)
    ensures NoExactBeforeLast(client, scorer, terms, SearchFrom(client, scorer, terms, namespaces, checked).listed)
    decreases |namespaces|
  {
    if namespaces != [] {
      var ns := namespaces[0];
      var o := SearchFrom(client, scorer, terms, namespaces, checked);
      if ns in checked {
        ExactMatchEndsSearch(client, scorer, terms, namespaces[1..], checked);
        assert o == SearchFrom(client, scorer, terms, namespaces[1..], checked);
      } else {
        ExactMatchEndsSearch(client, scorer, terms, namespaces[1..], checked + {ns});
        var rest := SearchFrom(client, scorer, terms, namespaces[1..], checked + {ns});
        if |o.listed| > 1 {
          assert o.listed == [ns] + rest.listed;
          forall j | 0 <= j < |o.listed| - 1
            ensures !HasExactMatch(ListingMatches(scorer, client(o.listed[j]), terms))
          {
            assert NoExactBeforeLast(client, scorer, terms, rest.listed);
            if j > 0 {
              assert o.listed[j] == rest.listed[j - 1];
            } else {
              assert o.listed[j] == ns;
              assert client(ns).Listed? ==> !HasExactMatch(NamespaceMatches(scorer, client(ns).items, terms));
            }
          }
        }
      }
    }
  }

  /** When no namespace but the last has an exact match, an exact match among the gathered matches is the last namespace's. */
  lemma {:induction false} GatherExact(client: string -> ListResult, scorer: Scorer, terms: seq<string>, listed: seq<string>)
    requires |listed| > 0
    requires NoExactBeforeLast(client, scorer, terms, listed)
    requires HasExactMatch(Gather(client, scorer, terms, listed))
    ensures HasExactMatch(ListingMatches(scorer, client(listed[|listed| - 1]), terms))
    decreases |listed|
  {
    var head := ListingMatches(scorer, client(listed[0]), terms);
    var rest := Gather(client, scorer, terms, listed[1..]);
    HasExactMatchAppend(head, rest);
    if |listed| == 1 {
      assert rest == [];
      assert !HasExactMatch(rest);
    } else {
      assert !HasExactMatch(head);
      assert NoExactBeforeLast(client, scorer, terms, listed[1..]) by {
        forall j | 0 <= j < |listed[1..]| - 1
          ensures !HasExactMatch(ListingMatches(scorer, client(listed[1..][j]), terms))
        {
          assert listed[1..][j] == listed[j + 1];
        }
      }
      GatherExact(client, scorer, terms, listed[1..]);
      assert listed[1..][|listed[1..]| - 1] == listed[|listed| - 1];
    }
  }

  /**
   * The search ends before the last distinct namespace only at a namespace
   * whose listing failed or held an exact match; a not-found or forbidden
   * namespace never ends it.
   */
  lemma {:induction false} StopsOnlyForReason(client: string -> ListResult, scorer: Scorer, terms: seq<string>,
                                            namespaces: seq<string>, checked: set<string>)
    ensures var o := SearchFrom(client, scorer, terms, namespaces, checked);
      o.listed != Dedup(namespaces, checked) ==>
        && |o.listed| > 0
        && var last := client(o.listed[|o.listed| - 1]);
           last.Failed? || HasExactMatch(ListingMatches(scorer, last, terms))
    ensures var o := SearchFrom(client, scorer, terms, namespaces, checked);
      (|o.listed| > 0 && (client(o.listed[|o.listed| - 1]).NotFound? || client(o.listed[|o.listed| - 1]).Forbidden?))
      ==> o.listed == Dedup(namespaces, checked)
  {
    var o := SearchFrom(client, scorer, terms, namespaces, checked);
    ListedIsPrefixOfDedup(client, scorer, terms, namespaces, checked);
    SearchFailsIffListingFailed(client, scorer, terms, namespaces, checked);
    SearchGathersListedNamespaces(client, scorer, terms, namespaces, checked);
    ExactMatchEndsSearch(client, scorer, terms, namespaces, checked);
    if o.listed != Dedup(namespaces, checked) && o.result.Ok? {
      assert HasExactMatch(Gather(client, scorer, terms, o.listed));
      assert |o.listed| > 0 by {
        assert Gather(client, scorer, terms, []) == [];
      }
      GatherExact(client, scorer, terms, o.listed);
    }
  }

  // ---------------------------------------------------------------------
  // TemplateSearcher
  // ---------------------------------------------------------------------

  /**
   * Resolves template names against the templates stored in `namespaces`.
   * `stopOnMatch` is configuration the search never reads.
   */
  datatype TemplateSearcher = TemplateSearcher(client: string -> ListResult, namespaces: seq<string>, stopOnMatch: bool)
  {
    /**
     * Searches every configured namespace once, in order; `listed` records the
     * namespaces handed to the client.
     */
    method Search(scorer: Scorer, terms: seq<string>) returns (res: Result<seq<ComponentMatch>>, ghost listed: seq<string>)
      ensures res == SearchFrom(client, scorer, terms, namespaces, {}).result
      ensures listed == SearchFrom(client, scorer, terms, namespaces, {}).listed
    {
      var matches: seq<ComponentMatch> := [];
      var checkedNamespaces: set<string> := {};
      listed := [];
      var n := 0;
      assert namespaces[n..] == namespaces;
      PrependNothing(SearchFrom(client, scorer, terms, namespaces, {}).result);
      while n < |namespaces|
        invariant 0 <= n <= |namespaces|
        invariant Extend(matches, listed, SearchFrom(client, scorer, terms, namespaces[n..], checkedNamespaces))
               == SearchFrom(client, scorer, terms, namespaces, {})
      {
        var namespace := namespaces[n];
        assert namespaces[n..][1..] == namespaces[n + 1..];
        if namespace in checkedNamespaces {
          n := n + 1;
          continue;
        }
        ghost var checkedBefore, listedBefore, matchesBefore := checkedNamespaces, listed, matches;
        ghost var rest := SearchFrom(client, scorer, terms, namespaces[n + 1..], checkedBefore + {namespace});
        checkedNamespaces := checkedNamespaces + {namespace};

        var templates := client(namespace);
        listed := listed + [namespace];
        if !templates.Listed? {
          if templates.NotFound? || templates.Forbidden? {
            PrependNothing(rest.result);
            ExtendExtend(matchesBefore, listedBefore, [], [namespace], rest);
            n := n + 1;
            continue;
          }
          return Err(ListFailed(templates.cause)), listed;
        }

        var found, exact := ScoreTemplates(scorer, templates.items, terms);
        matches := matches + found;
        if exact {
          return Ok(matches), listed;
        }
        ExtendExtend(matchesBefore, listedBefore, found, [namespace], rest);
        n := n + 1;
      }
      assert namespaces[n..] == [];
      assert matches + [] == matches && listed + [] == listed;
      res := Ok(matches);
    }
  }

  /**
   * Scores every template of one namespace against the terms: each template
   * yields the match of its first scoring term, if any; `exact` reports
   * whether some match scored exactly 0.
   */
  method ScoreTemplates(scorer: Scorer, items: seq<Template>, terms: seq<string>)
    returns (found: seq<ComponentMatch>, exact: bool)
    ensures found == NamespaceMatches(scorer, items, terms)
    ensures exact <==> HasExactMatch(found)
  {
    found := [];
    exact := false;
    var i := 0;
    while i < |items|
      invariant 0 <= i <= |items|
      invariant found == NamespaceMatches(scorer, items[..i], terms)
      invariant exact <==> HasExactMatch(found)
    {
      var template := items[i];
      ghost var foundHere, exactHere := found, exact;
      var j := 0;
      while j < |terms|
        invariant 0 <= j <= |terms|
        invariant forall k :: 0 <= k < j ==> scorer(template, terms[k]).None?
        invariant found == foundHere && exact == exactHere
      {
        var scored := scorer(template, terms[j]);
        if scored.Some? {
          if scored.value == 0.0 {
            exact := true;
          }
          found := found + [TemplateMatch(template, terms[j], scored.value)];
          break;
        }
        j := j + 1;
      }
      ScoreTemplatesStep(scorer, items, i, terms, j, foundHere, exactHere, found, exact);
      i := i + 1;
    }
    assert items[..i] == items;
  }

  /** One pass of the outer loop of ScoreTemplates keeps its invariant. */
  lemma ScoreTemplatesStep(scorer: Scorer, items: seq<Template>, i: nat, terms: seq<string>, j: nat,
                           foundHere: seq<ComponentMatch>, exactHere: bool, found: seq<ComponentMatch>, exact: bool)
    requires i < |items| && j <= |terms|
    requires forall k :: 0 <= k < j ==> scorer(items[i], terms[k]).None?
    requires j < |terms| ==> scorer(items[i], terms[j]).Some?
    requires foundHere == NamespaceMatches(scorer, items[..i], terms) && (exactHere <==> HasExactMatch(foundHere))
    requires j == |terms| ==> found == foundHere && exact == exactHere
    requires j < |terms| ==>
      && found == foundHere + [TemplateMatch(items[i], terms[j], scorer(items[i], terms[j]).value)]
      && exact == (exactHere || scorer(items[i], terms[j]).value == 0.0)
    ensures found == NamespaceMatches(scorer, items[..i + 1], terms)
    ensures exact <==> HasExactMatch(found)
  {
    MatchTemplateAt(scorer, items[i], terms, j);
    var added := OptionToSeq(MatchTemplate(scorer, items[i], terms));
    HasExactMatchAppend(foundHere, added);
    NamespaceMatchesStep(scorer, items, i, terms);
  }

  /** The result of `TemplateSearcher.Search` as a function of the searcher and the terms. */
  function TemplateSearch(r: TemplateSearcher, scorer: Scorer, terms: seq<string>): Outcome {
    SearchFrom(r.client, scorer, terms, r.namespaces, {})
  }

  /** Each distinct namespace is listed at most once per search, and only configured ones are. */
  lemma SearchListsEachNamespaceOnce(r: TemplateSearcher, scorer: Scorer, terms: seq<string>)
    ensures var o := TemplateSearch(r, scorer, terms);
      && (forall i, j :: 0 <= i < j < |o.listed| ==> o.listed[i] != o.listed[j])
      && (forall n :: n in o.listed ==> n in r.namespaces)
  {
    var o := TemplateSearch(r, scorer, terms);
    var d := Dedup(r.namespaces, {});
    ListedIsPrefixOfDedup(r.client, scorer, terms, r.namespaces, {});
    assert forall i :: 0 <= i < |o.listed| ==> o.listed[i] == d[i];
  }

  /** The StopOnMatch field has no effect on the search. */
  lemma StopOnMatchIgnored(r: TemplateSearcher, scorer: Scorer, terms: seq<string>, stop: bool)
    ensures TemplateSearch(r.(stopOnMatch := stop), scorer, terms) == TemplateSearch(r, scorer, terms)
  {
  }

  // ---------------------------------------------------------------------
  // TemplateFileSearcher: specification
  // ---------------------------------------------------------------------

  /** The match recorded for a template file. */
  function FileMatch(term: string, t: Template): ComponentMatch {
    ComponentMatch(term, "--file=" + Quote(t.name), t.name, "Template file " + term, 0.0, t)
  }

  /** A decode outcome that makes a file search fail. */
  predicate Rejected(d: DecodeResult) {
    d.Decoded? && (!d.singular || !d.obj.TemplateObject?)
  }

  function RejectionError(term: string, d: DecodeResult): SearchError
    requires Rejected(d)
  {
    if !d.singular then MultipleObjects(term) else NotATemplate(term)
  }

  /** The result of a file search over `terms`, decoding each in `namespace`. */
  function FileSearch(decode: (string, string) -> DecodeResult, namespace: string, terms: seq<string>): Result<seq<ComponentMatch>>
  {
    if terms == [] then Ok([])
    else
      var term := terms[0];
      match decode(namespace, term)
      case DecodeFailed => FileSearch(decode, namespace, terms[1..])
      case Decoded(singular, obj) =>
        if !singular then Err(MultipleObjects(term))
        else if !obj.TemplateObject? then Err(NotATemplate(term))
        else Prepend([FileMatch(term, obj.template)], FileSearch(decode, namespace, terms[1..]))
  }

  /**
   * The matches of the terms that decode to a single template, in term order:
   * every one has score 0 and names its term and template.
   */
  function FileMatches(decode: (string, string) -> DecodeResult, namespace: string, terms: seq<string>): (ms: seq<ComponentMatch>)
    ensures |ms| <= |terms|
    ensures forall m :: m in ms ==>
      && m.score == 0.0
      && m.value in terms
      && decode(namespace, m.value) == Decoded(true, TemplateObject(m.template))
      && m.name == m.template.name
      && m.argument == "--file=" + Quote(m.name)
      && m.description == "Template file " + m.value
    ensures forall k, t :: (0 <= k < |terms| && decode(namespace, terms[k]) == Decoded(true, TemplateObject(t))
      ==> FileMatch(terms[k], t) in ms)
  {
    if terms == [] then []
    else
      var rest := FileMatches(decode, namespace, terms[1..]);
      assert forall k :: 1 <= k < |terms| ==> terms[k] == terms[1..][k - 1];
      match decode(namespace, terms[0])
      case Decoded(true, TemplateObject(t)) => [FileMatch(terms[0], t)] + rest
      case _ => rest
  }

  // ---------------------------------------------------------------------
  // TemplateFileSearcher: properties of the specification
  // ---------------------------------------------------------------------

  /**
   * A file search fails exactly when some term decodes to several objects or
   * to a non-template, and the error names the first such term; otherwise it
   * returns the matches of the terms that decode to a template.
   */
  lemma {:induction false} FileSearchOutcome(decode: (string, string) -> DecodeResult, namespace: string, terms: seq<string>)
    ensures var r := FileSearch(decode, namespace, terms);
      && (r.Err? <==> exists k :: 0 <= k < |terms| && Rejected(decode(namespace, terms[k])))
      && (r.Err? ==> exists k :: (0 <= k < |terms| && Rejected(decode(namespace, terms[k]))
            && (forall j :: 0 <= j < k ==> !Rejected(decode(namespace, terms[j])))
            && r.error == RejectionError(terms[k], decode(namespace, terms[k]))))
      && (r.Ok? ==> r.value == FileMatches(decode, namespace, terms))
  {
    if terms != [] {
      FileSearchOutcome(decode, namespace, terms[1..]);
      var r := FileSearch(decode, namespace, terms);
      var rest := FileSearch(decode, namespace, terms[1..]);
      assert forall k :: 1 <= k < |terms| ==> terms[k] == terms[1..][k - 1];
      if Rejected(decode(namespace, terms[0])) {
        assert r.Err? && r.error == RejectionError(terms[0], decode(namespace, terms[0]));
      } else if rest.Err? {
        var k' :| 0 <= k' < |terms[1..]| && Rejected(decode(namespace, terms[1..][k']))
            && (forall j :: 0 <= j < k' ==> !Rejected(decode(namespace, terms[1..][j])))
            && rest.error == RejectionError(terms[1..][k'], decode(namespace, terms[1..][k']));
        assert Rejected(decode(namespace, terms[k' + 1]));
        assert forall j :: 0 <= j < k' + 1 ==> !Rejected(decode(namespace, terms[j])) by {
          forall j | 0 <= j < k' + 1 ensures !Rejected(decode(namespace, terms[j])) {
            if j > 0 { assert terms[j] == terms[1..][j - 1]; }
          }
        }
      } else {
        assert !exists k :: 0 <= k < |terms| && Rejected(decode(namespace, terms[k])) by {
          forall k | 0 <= k < |terms| ensures !Rejected(decode(namespace, terms[k])) {
            if k > 0 { assert terms[k] == terms[1..][k - 1]; }
          }
        }
      }
    }
  }

  /** Searching `a + b` is searching `a`, then, if that succeeded, searching `b`. */
  lemma {:induction false} FileSearchAppend(decode: (string, string) -> DecodeResult, namespace: string, a: seq<string>, b: seq<string>)
    ensures FileSearch(decode, namespace, a + b) ==
      match FileSearch(decode, namespace, a)
      case Err(e) => Err(e)
      case Ok(ms) => Prepend(ms, FileSearch(decode, namespace, b))
  {
    if a == [] {
      assert a + b == b;
      PrependNothing(FileSearch(decode, namespace, b));
    } else {
      assert (a + b)[0] == a[0];
      assert (a + b)[1..] == a[1..] + b;
      FileSearchAppend(decode, namespace, a[1..], b);
      match FileSearch(decode, namespace, a[1..])
      case Err(e) =>
      case Ok(ms) =>
        match FileSearch(decode, namespace, b)
        case Err(e) =>
        case Ok(ms') =>
          assert forall x: seq<ComponentMatch> :: x + (ms + ms') == x + ms + ms';
    }
  }

  /** A term that does not decode is skipped: it changes neither the matches nor the error. */
  lemma FileSearchSkipsUndecodable(decode: (string, string) -> DecodeResult, namespace: string,
                                   a: seq<string>, t: string, b: seq<string>)
    requires decode(namespace, t) == DecodeFailed
    ensures FileSearch(decode, namespace, a + [t] + b) == FileSearch(decode, namespace, a + b)
  {
    assert a + [t] + b == a + ([t] + b);
    FileSearchAppend(decode, namespace, a, [t] + b);
    FileSearchAppend(decode, namespace, a, b);
    assert ([t] + b)[1..] == b;
  }

  // ---------------------------------------------------------------------
  // TemplateFileSearcher
  // ---------------------------------------------------------------------

  /**
   * Resolves template files into templates; `decode` stands for the resource
   * builder that reads one file in `namespace`.
   */
  datatype TemplateFileSearcher = TemplateFileSearcher(decode: (string, string) -> DecodeResult, namespace: string)
  {
    method Search(terms: seq<string>) returns (res: Result<seq<ComponentMatch>>)
      ensures res == FileSearch(decode, namespace, terms)
      ensures res.Ok? ==> |res.value| <= |terms| && forall m :: m in res.value ==> m.score == 0.0 && m.value in terms
    {
      var matches: seq<ComponentMatch> := [];
      var i := 0;
      assert terms[i..] == terms;
      PrependNothing(FileSearch(decode, namespace, terms));
      while i < |terms|
        invariant 0 <= i <= |terms|
        invariant Prepend(matches, FileSearch(decode, namespace, terms[i..])) == FileSearch(decode, namespace, terms)
      {
        var term := terms[i];
        assert terms[i..][1..] == terms[i + 1..];
        var decoded := decode(namespace, term);
        if decoded.DecodeFailed? {
          i := i + 1;
          continue;
        }
        if !decoded.singular {
          return Err(MultipleObjects(term));
        }
        if !decoded.obj.TemplateObject? {
          return Err(NotATemplate(term));
        }
        var template := decoded.obj.template;
        PrependPrepend(matches, [FileMatch(term, template)], FileSearch(decode, namespace, terms[i + 1..]));
        matches := matches + [FileMatch(term, template)];
        i := i + 1;
      }
      assert terms[i..] == [];
      assert matches + [] == matches;
      res := Ok(matches);
      FileSearchOutcome(decode, namespace, terms);
    }
  }
}
