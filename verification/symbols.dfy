/**
  Entry-point binding (`get_api` and `open_sym` in skynet-src/skynet_module.c).
  The symbol prefix of a module is the part of its name after the last `.`;
  each of the four entry points is that prefix followed by a fixed suffix.
  The platform symbol lookup (`dlsym`) is a parameter: a pure oracle from a
  library handle and a symbol name to an optional entry point.
*/
module Symbols {
  import opened Wrappers

  const Dot := '.'
  const CreateSuffix := "_create"
  const InitSuffix := "_init"
  const ReleaseSuffix := "_release"
  const SignalSuffix := "_signal"

  /** The entry points of a bound module; `init` is the one that must exist. */
  datatype Api<S> = Api(create: Option<S>, init: S, release: Option<S>, signal: Option<S>)

  /** The part of `s` after its last `.` (`strrchr(s, '.') + 1`), or all of `s`
      when it has no `.`. */
  function AfterLastDot(s: string): (r: string)
    ensures Dot !in r
    ensures |r| <= |s| && r == s[|s| - |r|..]
    ensures |r| < |s| ==> s[|s| - |r| - 1] == Dot
  {
    if |s| == 0 then s
    else if s[|s| - 1] == Dot then []
    else
      var r := AfterLastDot(s[..|s| - 1]);
      assert s[..|s| - 1][|s| - 1 - |r|..] + [s[|s| - 1]] == s[|s| - |r| - 1..];
      r + [s[|s| - 1]]
  }

  /** The three properties of `AfterLastDot` determine it: a dot-free suffix
      that is all of `s` or follows a `.` is the one it returns. */
  lemma AfterLastDotUnique(s: string, r: string)
    requires Dot !in r
    requires |r| <= |s| && r == s[|s| - |r|..]
    requires |r| < |s| ==> s[|s| - |r| - 1] == Dot
    ensures r == AfterLastDot(s)
  {
  }

  /** The symbol `get_api` asks for: it takes the part after the last `.` of the
      name and the suffix written together. For a suffix without `.`, that is
      the name's part after its last `.`, followed by the suffix. */
  function SymbolName(name: string, suffix: string): (r: string)
    ensures Dot !in suffix ==> r == AfterLastDot(name) + suffix
  {
    if Dot in suffix then AfterLastDot(name + suffix)
    else
      AfterLastDotOfConcat(name, suffix);
      AfterLastDot(name + suffix)
  }

  /** Appending a dot-free suffix extends the part after the last `.`. */
  lemma AfterLastDotOfConcat(name: string, suffix: string)
    requires Dot !in suffix
    ensures AfterLastDot(name + suffix) == AfterLastDot(name) + suffix
  {
    var s := name + suffix;
    var a := AfterLastDot(name);
    var r := a + suffix;
    assert s[|s| - |r|..] == name[|name| - |a|..] + suffix;
    if |r| < |s| {
      assert s[|s| - |r| - 1] == name[|name| - |a| - 1];
    }
    AfterLastDotUnique(s, r);
  }

  /** None of the four suffixes holds a `.`. */
  lemma SuffixesHaveNoDot()
    ensures Dot !in CreateSuffix && Dot !in InitSuffix && Dot !in ReleaseSuffix && Dot !in SignalSuffix
  {
  }

  /** The four symbols of a module are the part of its name after the last `.`
      followed by each suffix. */
  lemma SymbolsOfName(name: string)
    ensures SymbolName(name, CreateSuffix) == AfterLastDot(name) + CreateSuffix
    ensures SymbolName(name, InitSuffix) == AfterLastDot(name) + InitSuffix
    ensures SymbolName(name, ReleaseSuffix) == AfterLastDot(name) + ReleaseSuffix
    ensures SymbolName(name, SignalSuffix) == AfterLastDot(name) + SignalSuffix
  {
    SuffixesHaveNoDot();
  }

  /** `open_sym`: look the four entry points up; the binding fails exactly when
      `init` is missing, and the optional ones are kept as found. */
  function OpenSym<H, S>(dl: H, name: string, dlsym: (H, string) -> Option<S>): (r: Option<Api<S>>)
    ensures r.None? <==> dlsym(dl, AfterLastDot(name) + InitSuffix).None?
    ensures r.Some? ==>
      && Some(r.value.init) == dlsym(dl, AfterLastDot(name) + InitSuffix)
      && r.value.create == dlsym(dl, AfterLastDot(name) + CreateSuffix)
      && r.value.release == dlsym(dl, AfterLastDot(name) + ReleaseSuffix)
      && r.value.signal == dlsym(dl, AfterLastDot(name) + SignalSuffix)
  {
    SymbolsOfName(name);
    var create := dlsym(dl, SymbolName(name, CreateSuffix));
    var init := dlsym(dl, SymbolName(name, InitSuffix));
    var release := dlsym(dl, SymbolName(name, ReleaseSuffix));
    var signal := dlsym(dl, SymbolName(name, SignalSuffix));
    if init.None? then None else Some(Api(create, init.value, release, signal))
  }

  /** A service named `service.logger` is bound through `logger_init`. */
  lemma DottedNameExample()
    ensures SymbolName("service.logger", InitSuffix) == "logger_init"
  {
    SuffixesHaveNoDot();
    assert "service.logger"[8..] == "logger";
    AfterLastDotUnique("service.logger", "logger");
    assert "logger" + InitSuffix == "logger_init";
  }

  /** A name without `.` is used whole: `snlua` is bound through `snlua_init`. */
  lemma PlainNameExample()
    ensures SymbolName("snlua", InitSuffix) == "snlua_init"
  {
    SuffixesHaveNoDot();
    assert "snlua"[0..] == "snlua";
    AfterLastDotUnique("snlua", "snlua");
    assert "snlua" + InitSuffix == "snlua_init";
  }
}
