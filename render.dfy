/**
  keystone/render.py: the two-section template format, the parsed
  `Template` artifact and the `RenderEngine` cache keyed by template name
  and invalidated by modification time.

  The code section is never executed here: its effect on a binding map is
  supplied by an `Interpreter` parameter, and the Jinja2 rendering of the
  body is represented by the (template name, bindings) pair handed to it.
 */
module Render {
  import opened Wrappers
  import opened Strings
  import opened Files

  /** Errors of the render layer. */
  datatype Error =
    /** `InvalidTemplate`: a second separator on 0-based line `lineno`; `seenAt` is where the first one was. */
    | InvalidTemplate(lineno: nat, seenAt: nat)
    /** `os.stat` of the template file failed: there is no such file. */
    | TemplateNotFound(name: string)

  /** A value bound in a view's scope: text (URL parameters) or an opaque object (request, headers, ...). */
  datatype Value = Text(text: string) | Object(handle: nat)

  type Bindings = map<string, Value>

  /**
    The net effect of running a code section on its scope: each name the
    code leaves assigned maps to Some(final value), each name it deleted to
    None; names it did not touch are absent.
   */
  type Effect = map<string, Option<Value>>

  /** Running a code section (its lines) on a seed scope, abstracted to the effect it has. */
  type Interpreter = (seq<string>, Bindings) -> Effect

  /** The scope after the code ran: the seed, overridden by assignments, minus deletions. */
  function Apply(seed: Bindings, effect: Effect): (out: Bindings)
    ensures forall k :: k in seed && k !in effect ==> k in out && out[k] == seed[k]
    ensures forall k :: k in effect && effect[k].Some? ==> k in out && out[k] == effect[k].value
    ensures forall k :: k in effect && effect[k].None? ==> k !in out
    ensures forall k :: k in out ==> k in seed || k in effect
  {
    map k | k in seed.Keys + effect.Keys && !(k in effect && effect[k].None?) ::
      if k in effect then effect[k].value else seed[k]
  }

  /** A template's view callable: `lambda x: x`, or the compiled code section. */
  datatype ViewFunc = Identity | Compiled(code: seq<string>)

  /**
    Calling the view callable on `viewglobals`. The compiled form runs on a
    copy (`context = viewglobals.copy()`) and returns that copy; with value
    semantics the argument cannot change.
   */
  function RunView(v: ViewFunc, viewglobals: Bindings, exec: Interpreter): (out: Bindings)
    ensures v.Identity? ==> out == viewglobals
    ensures v.Compiled? ==> forall k :: k in viewglobals && k !in exec(v.code, viewglobals) ==>
      k in out && out[k] == viewglobals[k]
  {
    match v
    case Identity => viewglobals
    case Compiled(code) => Apply(viewglobals, exec(code, viewglobals))
  }

  /** A separator is a line whose stripped text is `----`. */
  predicate IsSeparator(line: string) {
    Strip(line) == "----"
  }

  /** The two sections of a template file: the lines before the separator and the lines after it. */
  datatype Sections = Sections(first: seq<string>, second: seq<string>)

  /** The index of the first separator at or after `from`, or `|lines|` when there is none. */
  function FirstSeparator(lines: seq<string>, from: nat): (k: nat)
    requires from <= |lines|
    ensures from <= k <= |lines|
    ensures k < |lines| ==> IsSeparator(lines[k])
    ensures forall i :: from <= i < k ==> !IsSeparator(lines[i])
    decreases |lines| - from
  {
    if from == |lines| then from
    else if IsSeparator(lines[from]) then from
    else FirstSeparator(lines, from + 1)
  }

  /**
    What parsing a file's lines yields, defined by where its separators are:
    no separator gives everything as the first section, one separator splits
    the lines around it, and a second separator is an error naming both.
   */
  function Sectioned(lines: seq<string>): Result<Sections, Error> {
    var k := FirstSeparator(lines, 0);
    if k == |lines| then Ok(Sections(lines, []))
    else
      var j := FirstSeparator(lines, k + 1);
      if j < |lines| then Err(InvalidTemplate(j, k))
      else Ok(Sections(lines[..k], lines[k + 1..]))
  }

  /** The input lines with every separator line removed. */
  function WithoutSeparators(lines: seq<string>): seq<string> {
    if lines == [] then []
    else (if IsSeparator(lines[0]) then [] else [lines[0]]) + WithoutSeparators(lines[1..])
  }

  /**
    The line loop of `RenderEngine.parse`: lines go to the `active` list,
    which switches from `first` to `second` at the first separator; a second
    separator raises `InvalidTemplate` with its line number and `len(first)`.
   */
  method SplitSections(lines: seq<string>) returns (r: Result<Sections, Error>)
    ensures r == Sectioned(lines)
  {
    var first: seq<string> := [];
    var second: seq<string> := [];
    var inSecond := false;
    var lineno := 0;
    ghost var k := FirstSeparator(lines, 0);
    while lineno < |lines|
      invariant 0 <= lineno <= |lines|
      invariant !inSecond ==> lineno <= k && first == lines[..lineno] && second == []
      invariant inSecond ==> k < lineno && first == lines[..k] && second == lines[k + 1..lineno]
      invariant inSecond ==> lineno <= FirstSeparator(lines, k + 1)
    {
      var line := lines[lineno];
      if IsSeparator(line) {
        if inSecond {
          return Err(InvalidTemplate(lineno, |first|));
        }
        inSecond := true;
      } else if inSecond {
        second := second + [line];
      } else {
        first := first + [line];
      }
      lineno := lineno + 1;
    }
    assert lines[..|lines|] == lines;
    r := Ok(Sections(first, second));
  }

  /** `parse`'s choice of view callable: the identity when the second section is empty. */
  function ViewOf(s: Sections): ViewFunc {
    if s.second == [] then Identity else Compiled(s.first)
  }

  /** `parse`'s choice of body: the joined first section when the second is empty, else the joined second. */
  function BodyOf(s: Sections): string {
    if s.second == [] then Concat(s.first) else Concat(s.second)
  }

  /** Neither section holds a separator line. */
  lemma SectionsHaveNoSeparator(lines: seq<string>, s: Sections)
    requires Sectioned(lines) == Ok(s)
    ensures forall i :: 0 <= i < |s.first| ==> !IsSeparator(s.first[i])
    ensures forall i :: 0 <= i < |s.second| ==> !IsSeparator(s.second[i])
  {
    var k := FirstSeparator(lines, 0);
    if k < |lines| {
      var j := FirstSeparator(lines, k + 1);
      forall i | 0 <= i < |s.first|
        ensures !IsSeparator(s.first[i])
      {
        assert s.first[i] == lines[i];
      }
      forall i | 0 <= i < |s.second|
        ensures !IsSeparator(s.second[i])
      {
        assert s.second[i] == lines[k + 1 + i];
      }
    }
  }

  /** The first section followed by the second is the input with its separator line removed. */
  lemma SectionsPartition(lines: seq<string>, s: Sections)
    requires Sectioned(lines) == Ok(s)
    ensures s.first + s.second == WithoutSeparators(lines)
  {
    SectionsHaveNoSeparator(lines, s);
    var k := FirstSeparator(lines, 0);
    if k == |lines| {
      NoSeparatorsKept(lines);
      assert s.first + s.second == lines;
    } else {
      assert lines == s.first + [lines[k]] + s.second;
      DropSeparator(s.first, lines[k], s.second);
    }
  }

  /** Removing the separators around a single separator line leaves the lines on either side. */
  lemma DropSeparator(a: seq<string>, sep: string, c: seq<string>)
    requires IsSeparator(sep)
    requires forall i :: 0 <= i < |a| ==> !IsSeparator(a[i])
    requires forall i :: 0 <= i < |c| ==> !IsSeparator(c[i])
    ensures WithoutSeparators(a + [sep] + c) == a + c
  {
    assert a + [sep] + c == a + ([sep] + c);
    WithoutSeparatorsAppend(a, [sep] + c);
    assert ([sep] + c)[1..] == c;
    assert WithoutSeparators([sep] + c) == WithoutSeparators(c);
    NoSeparatorsKept(a);
    NoSeparatorsKept(c);
  }

  lemma {:induction false} WithoutSeparatorsAppend(a: seq<string>, b: seq<string>)
    ensures WithoutSeparators(a + b) == WithoutSeparators(a) + WithoutSeparators(b)
  {
    if a != [] {
      assert (a + b)[1..] == a[1..] + b;
      WithoutSeparatorsAppend(a[1..], b);
    } else {
      assert a + b == b;
    }
  }

  lemma {:induction false} NoSeparatorsKept(a: seq<string>)
    requires forall i :: 0 <= i < |a| ==> !IsSeparator(a[i])
    ensures WithoutSeparators(a) == a
  {
    if a != [] {
      NoSeparatorsKept(a[1..]);
      assert [a[0]] + a[1..] == a;
    }
  }

  /**
    A second separator is an error iff the file has two separator lines; it
    names the 0-based line of the second and the line of the first, which is
    also the length of the first section.
   */
  lemma SecondSeparatorRejected(lines: seq<string>)
    ensures Sectioned(lines).Err? <==>
              exists i, j :: 0 <= i < j < |lines| && IsSeparator(lines[i]) && IsSeparator(lines[j])
    ensures Sectioned(lines).Err? ==>
      var e := Sectioned(lines).error;
      e.InvalidTemplate? && e.seenAt < e.lineno < |lines| &&
      IsSeparator(lines[e.seenAt]) && IsSeparator(lines[e.lineno]) &&
      (forall i :: 0 <= i < e.lineno && i != e.seenAt ==> !IsSeparator(lines[i]))
  {
    var k := FirstSeparator(lines, 0);
    if exists i, j :: 0 <= i < j < |lines| && IsSeparator(lines[i]) && IsSeparator(lines[j]) {
      var i, j :| 0 <= i < j < |lines| && IsSeparator(lines[i]) && IsSeparator(lines[j]);
      assert k <= i;
      var j' := FirstSeparator(lines, k + 1);
      assert j' <= j;
    }
  }

  /** No separator at all: the identity view, and the whole file is the body. */
  lemma NoSeparatorIsIdentity(lines: seq<string>)
    requires forall i :: 0 <= i < |lines| ==> !IsSeparator(lines[i])
    ensures Sectioned(lines) == Ok(Sections(lines, []))
    ensures ViewOf(Sectioned(lines).value) == Identity
    ensures BodyOf(Sectioned(lines).value) == Concat(lines)
  {
  }

  /**
    One separator: with lines after it, the code before it becomes the view
    and the rest the body; with nothing after it, the view is the identity
    and the code section itself is the body.
   */
  lemma OneSeparator(lines: seq<string>, k: nat)
    requires k < |lines| && IsSeparator(lines[k])
    requires forall i :: 0 <= i < |lines| && i != k ==> !IsSeparator(lines[i])
    ensures Sectioned(lines) == Ok(Sections(lines[..k], lines[k + 1..]))
    ensures k + 1 < |lines| ==>
      ViewOf(Sectioned(lines).value) == Compiled(lines[..k]) &&
      BodyOf(Sectioned(lines).value) == Concat(lines[k + 1..])
    ensures k + 1 == |lines| ==>
      ViewOf(Sectioned(lines).value) == Identity &&
      BodyOf(Sectioned(lines).value) == Concat(lines[..k])
  {
    assert FirstSeparator(lines, 0) == k;
  }

  /** Python 2 truthiness of an mtime: `None` and `0` are false. */
  predicate Truthy(mtime: Option<int>) {
    mtime.Some? && mtime.value != 0
  }

  /**
    The `uptodate` closure's test `template.mtime and cached_mtime and
    template.mtime <= cached_mtime`: the mtime after the refresh is not newer
    than the one captured when the body was loaded (and neither is falsy).
   */
  function IsUpToDate(current: Option<int>, cached: Option<int>): (b: bool)
    ensures b <==> (current.Some? && cached.Some? && current.value != 0 && cached.value != 0 &&
                    current.value <= cached.value)
  {
    Truthy(current) && Truthy(cached) && current.value <= cached.value
  }

  /** `template.mtime < mtime` in Python 2, where `None` is less than every number. */
  predicate IsStale(stored: Option<int>, current: int) {
    stored.None? || stored.value < current
  }

  /** Property names mapped to text, as `viewglobals.update(urlparams)` puts them in the scope. */
  function TextBindings(params: map<string, string>): (b: Bindings)
    ensures b.Keys == params.Keys
    ensures forall k :: k in params ==> b[k] == Text(params[k])
  {
    map k | k in params :: Text(params[k])
  }

  /** The error a call reported, if any. */
  function ErrorOf<T>(r: Result<T, Error>): (e: Option<Error>)
    ensures e.Some? <==> r.Err?
    ensures r.Err? ==> e.value == r.error
  {
    if r.Err? then Some(r.error) else None
  }

  /** What Jinja2 is asked to render: the template of that name, with these bindings as keyword arguments. */
  datatype Output = Generated(name: string, bindings: Bindings)

  /** The body, name and captured mtime `get_template_body` hands to Jinja2's loader. */
  datatype Loaded = Loaded(body: string, name: string, cachedMtime: Option<int>)

  /** A parsed template: view callable, body, modification time, name and per-request URL parameters. */
  class Template {
    var view: ViewFunc
    var body: string
    var mtime: Option<int>
    var name: Option<string>
    var urlparams: map<string, string>

    /** `Template.__init__`: URL parameters start empty. */
    constructor (view: ViewFunc, body: string, mtime: Option<int>, name: Option<string>)
      ensures this.view == view && this.body == body && this.mtime == mtime && this.name == name
      ensures urlparams == map[]
    {
      this.view := view;
      this.body := body;
      this.mtime := mtime;
      this.name := name;
      urlparams := map[];
    }

    /** `Template.copy`: a new object sharing view, body, mtime and name, with its own empty URL parameters. */
    method Copy() returns (c: Template)
      ensures fresh(c)
      ensures c.view == view && c.body == body && c.mtime == mtime && c.name == name
      ensures c.urlparams == map[]
    {
      c := new Template(view, body, mtime, name);
    }
  }

  /** The template cache: a dictionary from template name to its parsed `Template`. */
  class RenderEngine {
    var templates: map<string, Template>

    /** Every entry is stamped with its own name and an mtime, and its URL parameters are empty. */
    ghost predicate Valid()
      reads this, templates.Values
    {
      forall n :: n in templates ==>
        templates[n].name == Some(n) && templates[n].mtime.Some? && templates[n].urlparams == map[]
    }

    constructor ()
      ensures Valid() && templates == map[]
    {
      templates := map[];
    }

    /** `parse`: a new unnamed, undated Template from the file's lines, or `InvalidTemplate`. */
    method Parse(lines: seq<string>) returns (r: Result<Template, Error>)
      ensures Sectioned(lines).Err? ==> r == Err(Sectioned(lines).error)
      ensures Sectioned(lines).Ok? ==>
                r.Ok? && fresh(r.value) &&
                r.value.view == ViewOf(Sectioned(lines).value) &&
                r.value.body == BodyOf(Sectioned(lines).value) &&
                r.value.mtime == None && r.value.name == None && r.value.urlparams == map[]
    {
      var sections := SplitSections(lines);
      match sections
      case Err(e) =>
        r := Err(e);
      case Ok(s) =>
        var t := new Template(ViewOf(s), BodyOf(s), None, None);
        r := Ok(t);
    }

    /**
      What `refresh_if_needed(name)` does to the cache, and the error it
      reports (None when it succeeds): a missing file is `TemplateNotFound`
      and changes nothing; an entry whose stored mtime is not older than the
      file's is kept as it is; otherwise the file is parsed, and either its
      error is reported with the cache unchanged, or a new entry with the
      file's view, body and mtime replaces the old one, every other key
      untouched.
     */
    twostate predicate Refreshed(fs: FileSystem, name: string, err: Option<Error>)
      reads this, templates.Values
    {
      if name !in fs.files then err == Some(TemplateNotFound(name)) && templates == old(templates)
      else if name in old(templates) && !IsStale(old(templates[name].mtime), fs.files[name].mtime) then
        err == None && templates == old(templates)
      else
        var parsed := Sectioned(fs.files[name].lines);
        if parsed.Err? then err == Some(parsed.error) && templates == old(templates)
        else
          err == None && name in templates && fresh(templates[name]) &&
          templates == old(templates)[name := templates[name]] &&
          templates[name].view == ViewOf(parsed.value) && templates[name].body == BodyOf(parsed.value) &&
          templates[name].mtime == Some(fs.files[name].mtime)
    }

    /**
      `refresh_if_needed`: stat the file (failing when it is missing); when
      there is no entry or the stored mtime is older, parse the file and
      store a new entry stamped with the mtime and the name. Afterwards the
      entry is never older than the file.
     */
    method RefreshIfNeeded(fs: FileSystem, name: string) returns (r: Result<(), Error>)
      requires Valid()
      modifies this
      ensures Valid()
      ensures Refreshed(fs, name, ErrorOf(r))
      ensures r.Ok? ==> name in fs.files && name in templates &&
                        templates[name].mtime.Some? && fs.files[name].mtime <= templates[name].mtime.value
    {
      if name !in fs.files {
        return Err(TemplateNotFound(name));
      }
      var mtime := fs.files[name].mtime;
      if name !in templates || IsStale(templates[name].mtime, mtime) {
        var parsed := Parse(fs.files[name].lines);
        match parsed
        case Err(e) =>
          return Err(e);
        case Ok(t) =>
          Store(name, t, mtime);
      }
      r := Ok(());
    }

    /** The store step of `refresh_if_needed`: stamp the new Template with the mtime and the name, and file it. */
    method Store(name: string, t: Template, mtime: int)
      requires Valid() && t !in templates.Values && t.urlparams == map[]
      modifies this, t
      ensures Valid()
      ensures templates == old(templates)[name := t]
      ensures t.view == old(t.view) && t.body == old(t.body)
      ensures t.mtime == Some(mtime) && t.name == Some(name)
    {
      t.mtime := Some(mtime);
      t.name := Some(name);
      templates := templates[name := t];
      forall n | n in templates && n != name
        ensures templates[n] != t
      {
        assert templates[n] in old(templates).Values;
      }
    }

    /** `get_template`: refresh, then the cached entry. */
    method GetTemplate(fs: FileSystem, name: string) returns (r: Result<Template, Error>)
      requires Valid()
      modifies this
      ensures Valid()
      ensures Refreshed(fs, name, ErrorOf(r))
      ensures r.Ok? ==> name in templates && r.value == templates[name]
      ensures r.Ok? ==> r.value.mtime.Some? && fs.files[name].mtime <= r.value.mtime.value
    {
      var refreshed := RefreshIfNeeded(fs, name);
      if refreshed.Err? {
        return Err(refreshed.error);
      }
      r := Ok(templates[name]);
    }

    /**
      `render`, binding merge only: `viewglobals.update(urlparams)` (the
      caller's dictionary is updated, returned here as `merged`), then the
      view callable's result is what Jinja2 renders the template with.
     */
    method Render(template: Template, viewglobals: Bindings, exec: Interpreter)
      returns (out: Output, merged: Bindings)
      requires template.name.Some?
      ensures merged.Keys == viewglobals.Keys + template.urlparams.Keys
      ensures forall k :: k in template.urlparams ==> merged[k] == Text(template.urlparams[k])
      ensures forall k :: k in viewglobals && k !in template.urlparams ==> merged[k] == viewglobals[k]
      ensures out == Generated(template.name.value, RunView(template.view, merged, exec))
    {
      merged := viewglobals + TextBindings(template.urlparams);
      out := Generated(template.name.value, RunView(template.view, merged, exec));
    }

    /** `get_template_body`: refresh, then the body, the name and the mtime the `uptodate` closure captures. */
    method GetTemplateBody(fs: FileSystem, name: string) returns (r: Result<Loaded, Error>)
      requires Valid()
      modifies this
      ensures Valid()
      ensures Refreshed(fs, name, ErrorOf(r))
      ensures r.Ok? ==>
                name in templates && r.value == Loaded(templates[name].body, name, templates[name].mtime)
    {
      var refreshed := RefreshIfNeeded(fs, name);
      if refreshed.Err? {
        return Err(refreshed.error);
      }
      var t := templates[name];
      r := Ok(Loaded(t.body, name, t.mtime));
    }

    /**
      The `uptodate` closure: refresh, then compare the entry's mtime with
      the captured one. An unchanged file is up to date; a file newer than
      the captured mtime is not.
     */
    method UpToDate(fs: FileSystem, name: string, cachedMtime: Option<int>) returns (r: Result<bool, Error>)
      requires Valid()
      modifies this
      ensures Valid()
      ensures Refreshed(fs, name, ErrorOf(r))
      ensures r.Ok? ==> name in templates && r.value == IsUpToDate(templates[name].mtime, cachedMtime)
      ensures (name in fs.files && name in old(templates) && old(templates[name].mtime) == cachedMtime &&
               !IsStale(cachedMtime, fs.files[name].mtime)) ==>
                r == Ok(Truthy(cachedMtime))
      ensures (name in fs.files && IsStale(cachedMtime, fs.files[name].mtime) &&
               Sectioned(fs.files[name].lines).Ok?) ==>
                r == Ok(false)
    {
      var refreshed := RefreshIfNeeded(fs, name);
      if refreshed.Err? {
        return Err(refreshed.error);
      }
      r := Ok(IsUpToDate(templates[name].mtime, cachedMtime));
    }
  }

  /**
    A refresh succeeds iff the file exists and either its entry is up to
    date or the file parses.
   */
  twostate lemma RefreshSucceeds(e: RenderEngine, fs: FileSystem, name: string, err: Option<Error>)
    requires e.Refreshed(fs, name, err)
    ensures err.None? <==>
              name in fs.files &&
              ((name in old(e.templates) && !IsStale(old(e.templates[name].mtime), fs.files[name].mtime)) ||
               Sectioned(fs.files[name].lines).Ok?)
  {
  }

  /**
    A fresh engine fetching a template twice without the file changing gets
    the identical object; fetching it again after its mtime increases gets a
    different one.
   */
  method RefetchAfterChange(fs: FileSystem, name: string, later: int)
    returns (first: Result<Template, Error>, second: Result<Template, Error>, third: Result<Template, Error>)
    requires name in fs.files && Sectioned(fs.files[name].lines).Ok?
    requires later > fs.files[name].mtime
    ensures first.Ok? && second.Ok? && third.Ok?
    ensures second.value == first.value
    ensures third.value != first.value
  {
    var engine := new RenderEngine();
    first := engine.GetTemplate(fs, name);
    second := engine.GetTemplate(fs, name);
    var changed := fs.(files := fs.files[name := fs.files[name].(mtime := later)]);
    third := engine.GetTemplate(changed, name);
  }
}
