# keystone: request resolution and the template cache

Keystone is a small web framework in which every page is a `.ks` file. A
`.ks` file holds an optional Python code section, then a `----` separator
line, then a Jinja2 body. A request path is resolved against the
application directory: an exact static file, an exact template, or a
template or file found through `%name` wildcard directories and file names,
whose matched segments become URL parameters.

This project models the two cores of that design and proves properties of
them:

- `resolver.dfy` (module `Resolver`) models `Keystone._find` and
  `Keystone._score_candidates` from keystone/main.py:
  - the hidden extensions and path normalisation;
  - the two exact lookups;
  - the pruned directory walk that collects candidates;
  - scoring, the maximum, and the alphabetical tie-break with its warning;
  - the binding of URL parameters.
- `render.dfy` (module `Render`) models keystone/render.py:
  - the two-section template format and `RenderEngine.parse`'s line loop;
  - the `Template` object and `copy`;
  - the `RenderEngine` cache keyed by name and invalidated by modification
    time (`refresh_if_needed`, `get_template`, `get_template_body` and its
    `uptodate` closure);
  - the binding merge in `render`.
- `strings.dfy` (module `Strings`) holds the pieces of Python's `str` the
  core uses: `split`, `join`, `count`, `startswith`, `endswith`, `strip`
  and the string order `sort` uses. It proves split/join round trips and
  that the order is total, antisymmetric and transitive.
- `files.dfy` (module `Files`) is the application directory as the core
  sees it:
  - `os.walk`'s listing of each directory, in which (as on a real disk)
    no name contains the separator and no name occurs twice;
  - each regular file's modification time and lines.
- `wrappers.dfy` (module `Wrappers`) holds `Option` and `Result`.

The outcomes are modelled as follows:

- Python's `None` results are `NoMatch`.
- An open file object is `StaticFile(path)`.
- An exception is an `Err` value.
- The `warnings.warn` call is a `warned` flag returned by `Find`.

Classes whose fields the source changes in place stay classes:

- `Template`, whose `urlparams`, `mtime` and `name` are set after
  construction;
- `RenderEngine`, whose `templates` dictionary is a `map` field;
- `Keystone`, which owns the engine.

The loops of the source are methods with loops:

- the line loop of `parse`;
- the walk, its pruning loop and its file loop;
- the two nested scoring loops;
- the URL-parameter loop.

Each loop method is proved against a function or predicate that defines
its result. Their properties are proved as lemmas.

What a refresh does to the cache is defined once, by the two-state
predicate `Render.RenderEngine.Refreshed`. It relates the cache before and
after `refresh_if_needed` and names the error the refresh reports. Every
operation that fetches a template through the cache states its outcome and
the new cache through it: `refresh_if_needed`, `get_template`,
`get_template_body`, `uptodate`, and both template branches of `_find`.

Each piece of the outside world becomes a parameter:

- The filesystem is a `FileSystem` value passed to each operation.
- The execution of a code section is an `Interpreter` parameter. It gives
  the net effect of the code on the scope it runs in.
- The Jinja2 rendering is the value `Generated(name, bindings)`: the
  template Jinja2 would be asked for and the keyword arguments it would get.

## Model

| member | source | states |
|---|---|---|
| Strings.Split | keystone/main.py:153 | `str.split` on one character always yields at least one piece |
| Strings.SplitLength | keystone/main.py:153-154 | the request has `path.count('/') + 1` segments, so `pathdepth` is the index of its last segment |
| Strings.JoinSplit | keystone/main.py:169 | joining the pieces of a split with the separator gives back the string |
| Strings.SplitJoin | keystone/main.py:169 | splitting the `/`-join of separator-free names gives back the names, so a candidate built with `os.path.join` splits back into its directory segments and file name |
| Strings.LexLeTotal | keystone/main.py:187 | any two strings are ordered one way or the other by `<=` |
| Strings.LexLeAntisymmetric | keystone/main.py:187 | two strings each `<=` the other are equal |
| Strings.LexLeTransitive | keystone/main.py:187 | the string order is transitive |
| Render.Apply | keystone/render.py:86-89 | the scope after the code ran: untouched seed names keep their values, assigned names take the assigned value, deleted names are gone, and nothing else appears |
| Render.RunView | keystone/render.py:77 | the identity view returns its argument; a compiled view keeps every seed binding its code does not touch |
| Render.FirstSeparator | keystone/render.py:66-67 | the index of the first separator line at or after a start, with no separator line between the start and that index |
| Render.SplitSections | keystone/render.py:63-73 | the line loop of `parse` yields exactly the sections (or the `InvalidTemplate` error) that the separator positions define |
| Render.SectionsHaveNoSeparator | keystone/render.py:66-73 | neither section contains a separator line |
| Render.SectionsPartition | keystone/render.py:66-73 | the first section followed by the second is the input with its separator line removed |
| Render.SecondSeparatorRejected | keystone/render.py:67-70 | parsing fails iff the file has two separator lines; the error is `InvalidTemplate` carrying the 0-based index of the second separator and the index of the first, which equals the length of the first section, with no other separator before the second |
| Render.NoSeparatorIsIdentity | keystone/render.py:75-78 | without a separator the whole file is the first section, the view is the identity and the body is the joined lines |
| Render.OneSeparator | keystone/render.py:75-93 | with one separator and lines after it, the code before it is the view and the joined rest is the body; with nothing after it, the view is the identity and the joined code section is the body |
| Render.Template.constructor | keystone/render.py:40-45 | a new template holds the given view, body, mtime and name, with empty URL parameters |
| Render.Template.Copy | keystone/render.py:47-48 | a copy is a new object sharing view, body, mtime and name, with empty URL parameters whatever the original holds |
| Render.RenderEngine.constructor | keystone/render.py:51-53 | a new engine has an empty cache |
| Render.RenderEngine.Parse | keystone/render.py:57-93 | `parse` yields the `InvalidTemplate` error of a file with two separators, and otherwise a new unnamed, undated template with the view and body the sections define |
| Render.RenderEngine.RefreshIfNeeded | keystone/render.py:97-110 | the cache changes as `Refreshed` says: a missing file is `TemplateNotFound` and changes nothing; an entry whose stored mtime is not older stays as it was; otherwise the file is parsed, and its error leaves the cache unchanged, or a new entry with that view, body, mtime and name replaces the old one with every other key untouched; afterwards the entry is never older than the file |
| Render.RenderEngine.Store | keystone/render.py:107-110 | the new template is stamped with the mtime and the name and filed under the name, keeping every entry stamped with its own name |
| Render.RenderEngine.GetTemplate | keystone/render.py:118-120 | `get_template` refreshes as `Refreshed` says and returns the entry then cached: the identical object while the file is not newer than the entry, a new one parsed from the file when it is, and the refresh's error otherwise |
| Render.RenderEngine.Render | keystone/render.py:112-116 | the URL parameters are laid over the caller's bindings, winning on clashes and keeping every other binding; the view runs on the merged scope and Jinja2 is handed the template's name with the view's result |
| Render.RenderEngine.GetTemplateBody | keystone/render.py:122-133 | the loader refreshes as `Refreshed` says, reporting its error, and returns the refreshed entry's body, its name and the mtime the `uptodate` closure captures |
| Render.RenderEngine.UpToDate | keystone/render.py:128-131 | `uptodate` refreshes as `Refreshed` says, then holds iff the entry's mtime and the captured one are both set and non-zero and the entry is not newer; so an unchanged file with a non-zero captured mtime is up to date, and a file newer than the captured mtime that parses is not |
| Render.RefreshSucceeds | keystone/render.py:101-110 | a refresh fails iff the file is missing, or its entry is absent or older than the file and the file does not parse |
| Render.RefetchAfterChange | keystone/render.py:103-120 | fetching twice from a fresh engine without the file changing gives the identical object; fetching after the file's mtime increases gives a different one |
| Resolver.Normalize | keystone/main.py:125-128 | one leading `/` is dropped, and an empty result becomes `index` |
| Resolver.Pruned | keystone/main.py:158-163 | corrected pruning (see Findings): the walk keeps exactly the sub-directories that lie within the request and either equal the request's segment at that depth or are wildcards |
| Resolver.PrunedAsWritten | keystone/main.py:158-163 | the pruning loop as written raises exactly when a directory deeper than the request's last segment (at a depth of `len(pathparts)` or more) has sub-directories |
| Resolver.PrunedDistinct | keystone/main.py:158-163 | pruning a listing without repeated names keeps it without repeats |
| Resolver.PrunedAsWrittenAgrees | keystone/main.py:158-163 | where the loop as written does not raise, it keeps what `Pruned` keeps |
| Resolver.ReachableWithinRequest | keystone/main.py:155-163 | every visited directory lies within the request, and each of its segments equals the request's segment there or is a wildcard |
| Resolver.ReachablePrefix | keystone/main.py:155-163 | every directory on the way to a visited one is visited |
| Resolver.CandidateJoin | keystone/main.py:169 | a matching file joined to its directory is a candidate path, and it splits back into directory and file name |
| Resolver.JoinInjective | keystone/main.py:169 | within one directory, two different file names join to two different paths |
| Resolver.JoinDirOf | keystone/main.py:169 | a path is the join of its directory part and its basename |
| Resolver.CandidateShape | keystone/main.py:151-175 | a candidate has one segment per request segment; each directory segment equals the request's or is a wildcard; its last segment is a wildcard, `index.ks` for an empty last request segment, the last segment plus `.ks`, or the last segment itself |
| Resolver.CandidateIsFile | keystone/main.py:165-175 | in a tree whose listings agree with its files, every candidate is a regular file, so a `.ks` winner that parses is always served |
| Resolver.PruneDirnames | keystone/main.py:158-163 | the pruning loop keeps the names `Pruned` defines, in listing order |
| Resolver.MatchFiles | keystone/main.py:166-175 | the file loop collects the join with the directory of exactly the files that can answer the last request segment, each once when the listing repeats no name |
| Resolver.Subdirectories | keystone/main.py:155-163 | the directories the walk descends into from a visited directory are exactly its visited children, each once when the listing repeats no name |
| Resolver.DirectoryCandidates | keystone/main.py:165-175 | a visited directory at the request's depth contributes exactly the candidate paths below it, each once |
| Resolver.VisitDirectory | keystone/main.py:155-175 | one directory of the walk yields its visited children and, at the request's depth, its candidates, each once |
| Resolver.VisitLevel | keystone/main.py:155-175 | visiting every directory at one depth, each once, yields every visited directory one deeper and every candidate at that depth, each once |
| Resolver.CollectCandidates | keystone/main.py:151-175 | the walk collects exactly the candidate paths of the request, each once |
| Resolver.SegmentScore | keystone/main.py:232-237 | one aligned pair scores at most 2 |
| Resolver.ScorePrefix | keystone/main.py:231-237 | the first `k` pairs score at most `2k` |
| Resolver.Score | keystone/main.py:228-238 | a candidate scores at most twice the number of pairs `izip` forms |
| Resolver.ScoreIgnoresTail | keystone/main.py:231 | segments past the shorter list never change the score |
| Resolver.ScoreCandidates | keystone/main.py:211-240 | one score per candidate, in candidate order, each the sum of the segment scores of the aligned pairs |
| Resolver.ScoreCandidate | keystone/main.py:229-237 | the inner scoring loop sums the segment scores of the pairs `izip` forms, giving the candidate's `Score` |
| Resolver.ScoreExampleFoo | test/test_main.py:348 | `foo` scores `%x.ks` at 0 and `foo.ks` at 1 |
| Resolver.ScoreExampleWildcards | test/test_main.py:352 | `foo/` scores `%y/%x.ks` at 0 |
| Resolver.ScoreExampleLiteral | test/test_main.py:352 | `foo/` scores `foo/%x.ks` at 1 |
| Resolver.ScoreExampleIndex | test/test_main.py:352 | `foo/` scores `%y/index.ks` at 2 |
| Resolver.SplitTrailingSlash | test/test_main.py:352 | the request `foo/` has the segments `foo` and the empty string |
| Resolver.Max | keystone/main.py:181 | `max(scores)` is one of the scores and no score exceeds it |
| Resolver.Tied | keystone/main.py:182 | the filtered list holds exactly the candidates whose score is the maximum |
| Resolver.TiedDistinct | keystone/main.py:182 | filtering a candidate list without repeats leaves one without repeats |
| Resolver.Least | keystone/main.py:184-192 | the first element after sorting is in the list and precedes every element of it |
| Resolver.WinnerUnique | keystone/main.py:184-192 | at most one candidate has the highest score and is least among those with it, so the result does not depend on the walk's order |
| Resolver.LeastOfTiedIsBest | keystone/main.py:180-192 | the least of the best-scoring candidates has the highest score and wins every tie; another candidate with its score makes the tied list longer than one |
| Resolver.TiedHasRival | keystone/main.py:182-186 | over a candidate list without repeats, a tied list longer than one means a different candidate scores as high as the chosen one |
| Resolver.LeastOfTiedWins | keystone/main.py:177-192 | for candidates listed in any order, the chosen path is the winner, and a rival with the same score means the tied list is longer than one |
| Resolver.ParamName | keystone/main.py:201-204 | the parameter name is the wildcard segment without its `%` and a trailing `.ks` |
| Resolver.UrlParamsKeys | keystone/main.py:199-205 | a name is bound iff some aligned winner segment is a wildcard carrying it |
| Resolver.UrlParamsLastWins | keystone/main.py:199-205 | each name is bound to the request segment aligned with the last wildcard carrying it |
| Resolver.UrlParamsExample | test/test_main.py:321 | `anydir/pagename` matched by `%wildcard/%wildcard2.ks` binds `wildcard` to `anydir` and `wildcard2` to `pagename` |
| Resolver.BindUrlParams | keystone/main.py:199-205 | the URL-parameter loop builds the bindings `UrlParams` defines over the pairs `izip` forms |
| Resolver.ChooseWinner | keystone/main.py:151-192 | the walk, scoring and tie-break give no winner iff there is no candidate, and then no warning; otherwise the unique winner, with one segment per request segment, and a warning exactly when another candidate ties with it |
| Resolver.Keystone.constructor | keystone/main.py:51 | a new application has a new engine with an empty cache |
| Resolver.Keystone.Find | keystone/main.py:121-209 | a hidden extension yields nothing whatever the tree holds; an exact file is returned unless its basename starts with `_`; these leave the cache unchanged and never warn. An exact template is fetched through the cache as `Refreshed` says: the refresh's error, or the cached entry itself with empty URL parameters, always the entry when the file parses. Otherwise the parameterised search resolves the request, warning exactly when another candidate ties with the winner |
| Resolver.Keystone.FindByParameters | keystone/main.py:151-209 | no candidate yields nothing with the cache unchanged; otherwise the unique winner is served: as a static file with the cache unchanged when it does not end in `.ks`, else fetched through the cache as `Refreshed` says, giving the refresh's error or a new copy of the entry with the URL parameters of the aligned segments, always the copy when the file parses; a warning exactly when another candidate ties with the winner |
| Resolver.Keystone.Instantiate | keystone/main.py:207-209 | the template is fetched through the cache as `Refreshed` says; on success the result is a new object, distinct from the cached entry, sharing its view, body, mtime and name and carrying the given URL parameters |
| Resolver.WalkAsWrittenRaises | keystone/main.py:159 | the request `/foo` against a tree whose wildcard directory `%w` holds a sub-directory makes the pruning loop as written index past the request's segments |

## Left out

- The code section and Jinja2 are abstract:
  - Executing the code section is an uninterpreted `Interpreter` parameter.
    That covers `compile`, `exec` and the `sys.path` prelude at
    keystone/render.py:80-89.
  - `compile`'s `SyntaxError` at parse time is not modelled.
  - The Jinja2 environment, its template cache and interpolation
    (keystone/render.py:54-55, 114-116) are represented by the value
    `Generated(name, bindings)`.
- These parts of keystone/main.py are not part of this model, because they
  are glue around foreign calls:
  - the WSGI and werkzeug glue (keystone/main.py:61-101), including the
    mapping of errors to responses;
  - the `startup` import and the `sys.path` insertion (keystone/main.py:53-59);
  - `render_static` (keystone/main.py:103-119), which is built from
    mimetypes, md5, datetime and conditional-GET calls.
- `return_response` is passed into the view scope but is defined nowhere in
  the repository, so it is not part of this model.
- keystone/http.py, keystone/scripts.py, docs/keystonelexer.py and
  test/util.py are not part of this model. They are a fixed exception
  vocabulary, a command-line tool, a syntax highlighter and test helpers.
- The filesystem is a value passed to the core. The model leaves out:
  - real file access;
  - `urljoin`'s resolution of the request path against the application
    directory (keystone/main.py:135-141). The model looks the normalised
    path up as a relative key of `fs.files`. In the code, a request such as
    `//etc/passwd` (an absolute path once the first `/` is dropped) or one
    holding `../` resolves outside the application directory, and the
    exact-file branch opens whatever file it names there;
  - concurrency.
- Modification times are integers; the source's floating-point `st_mtime`
  is not modelled.
- The warning's message text is not modelled, only whether it is issued.
- Resolver.CollectCandidates: the walk visits directories level by level
  instead of in `os.walk`'s depth-first order. The candidate list can
  therefore be in a different order. `Resolver.WinnerUnique` proves that
  the choice does not depend on that order.
- Resolver.PruneDirnames: it builds the list of kept names instead of
  removing entries from `dirnames` in place.
- Resolver.Least: the in-place `candidates.sort()` is modelled as taking
  the least element, which is all that is used afterwards.
- Render.RenderEngine.Render requires the template to have a name. Only
  templates fetched through the cache are rendered, and those always have
  one.
- Render.Template.Copy: Dafny maps are values, so a copy's URL parameters
  cannot alias the original's; `is not` identity of the dictionaries is not
  modelled.
- Where the code and its tests disagree, the model follows the code:
  - test/test_main.py:291 expects `/.dotfile` to yield nothing. The code at
    keystone/main.py:138-141 only refuses names starting with `_`, and so
    does `Resolver.Keystone.Find`.
  - test/test_render.py:39 and 290 expect a `TemplateNotFound` exception
    that keystone/render.py does not define. A missing file fails at the
    `os.stat` of keystone/render.py:102; the model reports it as
    `Render.TemplateNotFound`.
- The walk reads directory listings, and the fetch of a `.ks` winner reads
  `fs.files`. `Files.Listed` says the two agree, and
  `Resolver.CandidateIsFile` uses it. `Find` does not require it: a listed
  template missing from `fs.files` yields `TemplateNotFound`, as the failing
  `os.stat` would.
- A static file matched through a wildcard (keystone/main.py:193-197) is
  not checked for a `_` prefix or a hidden extension. The code does not
  check them either.

## Findings

| source | as written | input that shows it | evidently intended | confidence | as-written member | corrected member |
|---|---|---|---|---|---|---|
| keystone/main.py:159 | the pruning loop compares every sub-directory name with `pathparts[depth]` even for a directory deeper than the request's last segment, where `depth` is `len(pathparts)` or more, so `IndexError` is raised | request `/foo` against an application directory holding a wildcard directory `%w` that contains a sub-directory `sub`: `%w` is kept at depth 0 and visited at depth 1, where `pathparts[1]` does not exist | directories below the request's depth are pruned, since no candidate can lie there | not executed | Resolver.PrunedAsWritten, Resolver.WalkAsWrittenRaises | Resolver.Pruned |
