# Template lookup

This project models the template lookup of the `oc new-app` generator
(`pkg/generate/app/templatelookup.go`). The file has two searchers. Each turns
the user's search terms into an ordered list of component matches.

- **`TemplateSearcher.Search`** walks the configured namespaces in order and
  skips a namespace it has already checked. It asks the template client to list
  each new namespace. A not-found or forbidden listing is skipped; any other
  listing error ends the search with that error and no matches. Every template
  of the namespace is scored against the terms in order, and the first term
  that scores wins, so a template yields at most one match. After a namespace
  in which some match scored exactly 0, no further namespace is listed.
- **`TemplateFileSearcher.Search`** decodes every term as a file. A term that
  does not decode is skipped. A term that decodes to several objects, or to an
  object that is not a template, ends the search with an error and no matches.
  Every other term yields a match with score 0.

The collaborators are parameters of the model:

- the template client is a function `client: string -> ListResult`, a field of `TemplateSearcher`;
- the resource builder is a function `decode: (namespace, term) -> DecodeResult`, a field of `TemplateFileSearcher`;
- the template scorer is a function `Scorer = (Template, string) -> Option<real>`, passed to `Search`.

`TemplateSearcher.Search` also returns a ghost sequence `listed`. It records
the namespaces handed to the client, in call order. The properties about
listing are stated over it.

Each `Search` method is proved equal to a recursive specification function:
`SearchFrom` for the namespace search and `FileSearch` for the file search. The
properties are lemmas about those functions. They are proved against reference
definitions: `Dedup` gives the distinct namespaces in order, `Gather` gives the
matches of the listed namespaces, and `FileMatches` gives the matches of the
decodable terms.

The field `StopOnMatch` is never read by the code. Its name suggests that the
stop after an exact match should depend on it, but the search stops whatever
the field holds. The model follows the code, and `StopOnMatchIgnored` and
`ExactMatchEndsSearch` state this behaviour.

## Model

| member | source | states |
|---|---|---|
| `TemplateLookup.FirstScoringTerm` | pkg/generate/app/templatelookup.go:48-64 | The chosen term scores against the template and no earlier term does. No term is chosen exactly when no term scores. |
| `TemplateLookup.MatchTemplate` | pkg/generate/app/templatelookup.go:48-64 | A template yields a match iff some term scores. The match carries the first scoring term as `Value` and the template's name as `Name`. `Argument` is `--template="<name>"` and `Description` names the template and its project. `Score` is what the scorer reported for that term. |
| `TemplateLookup.NamespaceMatches` | pkg/generate/app/templatelookup.go:46-66 | A namespace yields no more matches than it has templates. |
| `TemplateLookup.NamespaceMatchesMembers` | pkg/generate/app/templatelookup.go:46-66 | Every match of a namespace is the one-template match of one of its templates. Every template that has a match contributes it. |
| `TemplateLookup.NamespaceMatchesAppend` | pkg/generate/app/templatelookup.go:46-66 | Matches follow template order: the matches of `a + b` are those of `a` followed by those of `b`. |
| `TemplateLookup.NamespaceMatchesSingle` | pkg/generate/app/templatelookup.go:47-65 | One template contributes exactly its one-template match, or nothing. |
| `TemplateLookup.ScoreTemplates` | pkg/generate/app/templatelookup.go:45-66 | The nested template and term loops produce exactly the namespace's matches. The `exact` flag is set iff one of them scored 0. |
| `TemplateLookup.TemplateSearcher.Search` | pkg/generate/app/templatelookup.go:27-73 | The loop over namespaces returns the result of `SearchFrom` and lists the namespaces it lists, in order. `SearchFrom` skips checked namespaces, treats not-found and forbidden as empty, ends with the error on any other listing failure, and stops after a namespace with a score-0 match. |
| `TemplateLookup.Dedup` | pkg/generate/app/templatelookup.go:30-35 | The distinct unchecked namespaces, each once, covering every unchecked configured namespace. |
| `TemplateLookup.ListedIsPrefixOfDedup` | pkg/generate/app/templatelookup.go:30-37 | The listed namespaces are a prefix of the distinct namespaces in configuration order. All of them are listed unless an error or an exact match ended the search. |
| `TemplateLookup.SearchListsEachNamespaceOnce` | pkg/generate/app/templatelookup.go:30-37 | No namespace is listed twice in one search, even when configured twice. Only configured namespaces are listed. |
| `TemplateLookup.SearchFailsIffListingFailed` | pkg/generate/app/templatelookup.go:37-43 | The search fails iff the last namespace listed failed with an error other than not-found or forbidden. The error is that listing error, with no matches. No earlier listing failed. |
| `TemplateLookup.SearchGathersListedNamespaces` | pkg/generate/app/templatelookup.go:37-66 | On success the matches are those of the listed namespaces, in listing order and then in template order. A not-found or forbidden namespace contributes none. Every template of the last namespace is still scored. |
| `TemplateLookup.ExactMatchEndsSearch` | pkg/generate/app/templatelookup.go:45-69 | Only the last listed namespace can hold a score-0 match. So no namespace is listed after one with an exact match. |
| `TemplateLookup.GatherExact` | pkg/generate/app/templatelookup.go:45-69 | When no namespace but the last listed one holds a score-0 match, a score-0 match among all gathered matches belongs to the last namespace. |
| `TemplateLookup.StopsOnlyForReason` | pkg/generate/app/templatelookup.go:37-69 | If the search lists fewer than all distinct namespaces, the last one listed either failed with an error other than not-found or forbidden or held a score-0 match. A not-found or forbidden namespace never ends the search. |
| `TemplateLookup.StopOnMatchIgnored` | pkg/generate/app/templatelookup.go:67-69 | The search result and the namespaces listed do not depend on `StopOnMatch`. |
| `TemplateLookup.TemplateFileSearcher.Search` | pkg/generate/app/templatelookup.go:89-126 | The loop over terms returns the specified result. On success there are at most as many matches as terms. Every match has score 0 and one of the terms as `Value`. |
| `TemplateLookup.FileMatches` | pkg/generate/app/templatelookup.go:115-122 | Each term that decodes to a single template yields one match. That match has score 0, the term as `Value` and the template's name as `Name`. `Argument` is `--file="<name>"` and `Description` is `Template file <term>`. There are at most as many matches as terms. |
| `TemplateLookup.FileSearchOutcome` | pkg/generate/app/templatelookup.go:101-113 | The file search fails iff some term decodes to several objects or to a non-template. The error names the first such term: multiple objects when the decode was not singular, otherwise not a template. Otherwise the result is exactly the matches of the decodable terms. |
| `TemplateLookup.FileSearchAppend` | pkg/generate/app/templatelookup.go:92-125 | Terms are handled in order. Searching `a + b` gives `a`'s error, or `a`'s matches followed by the result for `b`. |
| `TemplateLookup.FileSearchSkipsUndecodable` | pkg/generate/app/templatelookup.go:101-104 | A term that fails to decode changes neither the matches nor the error of the search. |

## Left out

- `IsPossibleTemplateFile` and `isFile` are a filesystem check. They are not modelled.
- `templateScorer` is defined outside this file. It is a parameter of the model with no properties assumed.
- The template client and the resource builder are functions over abstract results. This leaves out remote I/O, file I/O, parsing, REST mapping and the `errors.IsNotFound`/`IsForbidden` classification.
- `TemplateConfigsNamespacer` is never read and is left out. `Mapper`, `Typer` and `ClientMapper` configure the resource builder and are folded into the `decode` function.
- `glog` logging is left out.
- The `%q` formatting in `Argument` and `Description` is modelled as wrapping in double quotes, without Go's escaping.
- The error text from `fmt.Errorf` is represented by the constructors `MultipleObjects(term)` and `NotATemplate(term)`.
- Scores are `real`. Only the test `score == 0.0` is used, so floating point is not modelled.
- A match's `Template` pointer is the template value. Pointer identity into the listed items is not modelled.
- `TemplateLookup.ScoreTemplates`: the source runs the template and term loops inline in `Search` and appends straight to `matches`. The model runs them in a separate method and appends its result. The order and content of the matches are the same.
