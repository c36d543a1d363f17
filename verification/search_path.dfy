/**
  The search-path template of the module loader (`_try_open` in
  skynet-src/skynet_module.c). The template is a `;`-separated list of
  segments; in every segment the first `?` stands for the module name. The
  segments are tried left to right, each candidate path is handed to the
  platform loader, and the first one that opens wins.

  C strings are modelled as `seq<char>`: the terminating NUL is the end of the
  sequence. The platform loader (`dlopen`) is a parameter: a pure oracle from a
  candidate path to an optional library handle.
*/
module SearchPath {
  import opened Wrappers

  const Separator := ';'
  const Wildcard := '?'

  /** What `_try_open` ends with: a handle, NULL after every candidate failed,
      or the fatal "Invalid C service path" exit. */
  datatype TryOpenResult<H> = Opened(dl: H) | Exhausted | InvalidPath

  // ---------------------------------------------------------------------------
  // Scanning helpers (`strchr`, the `?` search loop, the `;` skipping loop)
  // ---------------------------------------------------------------------------

  /** Index of the first `c` in `s`, or `|s|` when there is none. */
  function IndexOf(s: string, c: char): (i: nat)
    ensures i <= |s| && c !in s[..i]
    ensures i < |s| ==> s[i] == c
    ensures i == |s| <==> c !in s
  {
    if |s| == 0 then 0
    else if s[0] == c then 0
    else
      var k := IndexOf(s[1..], c);
      assert s[..k + 1] == [s[0]] + s[1..][..k];
      1 + k
  }

  /** The template with its leading run of separators removed. */
  function SkipSeparators(p: string): (r: string)
    ensures |r| <= |p| && r == p[|p| - |r|..]
    ensures r == [] || r[0] != Separator
    ensures forall i :: 0 <= i < |p| - |r| ==> p[i] == Separator
  {
    if |p| > 0 && p[0] == Separator then SkipSeparators(p[1..]) else p
  }

  // ---------------------------------------------------------------------------
  // One segment
  // ---------------------------------------------------------------------------

  /** The candidate path for one segment: the first `?` is replaced by `name`;
      a segment with no `?` has no candidate (the fatal case). */
  function Expand(seg: string, name: string): (r: Option<string>)
    ensures r.Some? <==> Wildcard in seg
    ensures r.Some? ==> |r.value| == |seg| - 1 + |name|
    ensures r.Some? ==>
      var q := IndexOf(seg, Wildcard);
      && r.value[..q] == seg[..q]
      && Wildcard !in r.value[..q]
      && r.value[q..q + |name|] == name
      && r.value[q + |name|..] == seg[q + 1..]
  {
    var q := IndexOf(seg, Wildcard);
    if q == |seg| then None
    else Some(seg[..q] + name + seg[q + 1..])
  }

  // ---------------------------------------------------------------------------
  // The C loop
  // ---------------------------------------------------------------------------

  /** The outcome of trying one segment, given the outcome of trying the rest:
      a segment without `?` is fatal, an opened candidate is the answer, and
      the rest is consulted only when the loader refused the candidate. */
  function TryStep<H>(seg: string, name: string, dlopen: string -> Option<H>, rest: TryOpenResult<H>): TryOpenResult<H> {
    match Expand(seg, name)
    case None => InvalidPath
    case Some(candidate) =>
      match dlopen(candidate)
      case Some(dl) => Opened(dl)
      case None => rest
  }

  /** `_try_open`: skip separators, stop at the end of the template, cut the
      segment at the next `;`, try it, and go on from the `;` when the open
      failed. It walks exactly the segments of the template, in order. */
  function TryOpen<H>(path: string, name: string, dlopen: string -> Option<H>): (r: TryOpenResult<H>)
    ensures r == FirstOpen(Segments(path), name, dlopen)
    decreases |path|
  {
    var p := SkipSeparators(path);
    SegmentsSkipSeparators(path);
    if p == [] then
      SegmentsEmpty();
      Exhausted
    else
      var len := IndexOf(p, Separator);
      SegmentsHead(p);
      TryStep(p[..len], name, dlopen, TryOpen(p[len..], name, dlopen))
  }

  // ---------------------------------------------------------------------------
  // Reference definition: split, drop empty pieces, try in order
  // ---------------------------------------------------------------------------

  /** Every piece between separators, empty ones included. */
  function SplitAll(p: string): (pieces: seq<string>)
    ensures |pieces| >= 1
    ensures forall k :: 0 <= k < |pieces| ==> Separator !in pieces[k] && |pieces[k]| <= |p|
    decreases |p|
  {
    var i := IndexOf(p, Separator);
    if i == |p| then [p] else [p[..i]] + SplitAll(p[i + 1..])
  }

  /** The pieces that are not empty, in order. */
  function NonEmpty(pieces: seq<string>): (r: seq<string>)
    ensures |r| <= |pieces|
    ensures forall k :: 0 <= k < |r| ==> r[k] != [] && r[k] in pieces
    ensures forall k :: 0 <= k < |pieces| && pieces[k] != [] ==> pieces[k] in r
  {
    if pieces == [] then []
    else if pieces[0] == [] then NonEmpty(pieces[1..])
    else [pieces[0]] + NonEmpty(pieces[1..])
  }

  /** The segments of a template: the non-empty `;`-separated pieces. */
  function Segments(path: string): (segs: seq<string>)
    ensures forall k :: 0 <= k < |segs| ==> segs[k] != [] && Separator !in segs[k]
  {
    NonEmpty(SplitAll(path))
  }

  /** The template written back with one separator between segments. */
  function Join(segs: seq<string>): string
  {
    if segs == [] then []
    else if |segs| == 1 then segs[0]
    else segs[0] + [Separator] + Join(segs[1..])
  }

  /** A segment that was tried: it has a candidate and the loader refused it. */
  ghost predicate Refused<H>(seg: string, name: string, dlopen: string -> Option<H>) {
    Expand(seg, name).Some? && dlopen(Expand(seg, name).value).None?
  }

  /** Segments tried in order, stopping at the first that opens or is malformed. */
  function FirstOpen<H>(segs: seq<string>, name: string, dlopen: string -> Option<H>): (r: TryOpenResult<H>)
  {
    if segs == [] then Exhausted
    else TryStep(segs[0], name, dlopen, FirstOpen(segs[1..], name, dlopen))
  }

  /** Every segment in `segs` was tried and refused. */
  ghost predicate AllRefused<H>(segs: seq<string>, name: string, dlopen: string -> Option<H>) {
    forall j :: 0 <= j < |segs| ==> Refused(segs[j], name, dlopen)
  }

  /** Segment `k` opens as `dl` after every earlier segment was refused. */
  ghost predicate OpensAt<H>(segs: seq<string>, name: string, dlopen: string -> Option<H>, dl: H, k: int) {
    && 0 <= k < |segs|
    && AllRefused(segs[..k], name, dlopen)
    && Expand(segs[k], name).Some?
    && dlopen(Expand(segs[k], name).value) == Some(dl)
  }

  /** Segment `k` has no `?` and every earlier segment was refused. */
  ghost predicate MalformedAt<H>(segs: seq<string>, name: string, dlopen: string -> Option<H>, k: int) {
    && 0 <= k < |segs|
    && AllRefused(segs[..k], name, dlopen)
    && Wildcard !in segs[k]
  }

  // ---------------------------------------------------------------------------
  // Lemmas: the C loop walks exactly the segments of the template
  // ---------------------------------------------------------------------------

  /** The empty template has no segment. */
  lemma SegmentsEmpty()
    ensures Segments([]) == []
  {
    assert SplitAll([]) == [[]];
    assert NonEmpty([[]]) == NonEmpty([]);
  }

  /** A leading separator contributes no segment. */
  lemma SegmentsDropSeparator(p: string)
    requires p != [] && p[0] == Separator
    ensures Segments(p) == Segments(p[1..])
  {
    assert IndexOf(p, Separator) == 0;
    assert SplitAll(p) == [[]] + SplitAll(p[1..]);
    assert ([[]] + SplitAll(p[1..]))[1..] == SplitAll(p[1..]);
  }

  /** Skipping the leading run of separators does not change the segments. */
  lemma {:induction false} SegmentsSkipSeparators(p: string)
    ensures Segments(SkipSeparators(p)) == Segments(p)
    decreases |p|
  {
    if |p| > 0 && p[0] == Separator {
      SegmentsDropSeparator(p);
      SegmentsSkipSeparators(p[1..]);
    }
  }

  /** A template that starts inside a segment: that segment comes first, and the
      rest are the segments from the next separator on. */
  lemma SegmentsHead(p: string)
    requires p != [] && p[0] != Separator
    ensures var len := IndexOf(p, Separator);
      0 < len && Segments(p) == [p[..len]] + Segments(p[len..])
  {
    var len := IndexOf(p, Separator);
    if len == |p| {
      assert p[..len] == p && p[len..] == [];
      assert SplitAll(p) == [p];
      assert NonEmpty([p]) == [p] + NonEmpty([]);
      assert SplitAll([]) == [[]];
      assert NonEmpty([[]]) == NonEmpty([]);
    } else {
      var rest := SplitAll(p[len + 1..]);
      assert SplitAll(p) == [p[..len]] + rest;
      assert ([p[..len]] + rest)[1..] == rest;
      assert p[..len] != [];
      assert Segments(p) == [p[..len]] + NonEmpty(rest);
      SegmentsDropSeparator(p[len..]);
      assert p[len..][1..] == p[len + 1..];
    }
  }

  /** The first `c` of `s + [c] + t`, when `s` holds none, is the one after `s`. */
  lemma IndexOfAfter(s: string, c: char, t: string)
    requires c !in s
    ensures IndexOf(s + [c] + t, c) == |s|
  {
    var p := s + [c] + t;
    assert p[|s|] == c;
    assert p[..|s|] == s;
  }

  /** A non-empty piece without separators is a template of one segment. */
  lemma SegmentsSingle(s: string)
    requires s != [] && Separator !in s
    ensures Segments(s) == [s]
  {
    SegmentsHead(s);
    assert s[..|s|] == s && s[|s|..] == [];
    SegmentsEmpty();
  }

  /** Join then split gives the segments back (no segment empty, none holding `;`). */
  lemma {:induction false} SegmentsOfJoin(segs: seq<string>)
    requires forall k :: 0 <= k < |segs| ==> segs[k] != [] && Separator !in segs[k]
    ensures Segments(Join(segs)) == segs
  {
    if segs == [] {
      SegmentsEmpty();
    } else if |segs| == 1 {
      SegmentsSingle(segs[0]);
    } else {
      var s0 := segs[0];
      var tail := Join(segs[1..]);
      var p := s0 + [Separator] + tail;
      assert Join(segs) == p;
      SegmentsOfJoin(segs[1..]);
      IndexOfAfter(s0, Separator, tail);
      SegmentsHead(p);
      assert p[..|s0|] == s0;
      assert p[|s0|..] == [Separator] + tail;
      SegmentsDropSeparator(p[|s0|..]);
      assert p[|s0|..][1..] == tail;
    }
  }

  // ---------------------------------------------------------------------------
  // Lemmas: the three outcomes of trying the segments
  // ---------------------------------------------------------------------------

  /** NULL is returned exactly when every segment was tried and refused. */
  lemma {:induction false} FirstOpenExhausted<H>(segs: seq<string>, name: string, dlopen: string -> Option<H>)
    ensures FirstOpen(segs, name, dlopen) == Exhausted <==> AllRefused(segs, name, dlopen)
  {
    if segs != [] {
      FirstOpenExhausted(segs[1..], name, dlopen);
      if Refused(segs[0], name, dlopen) {
        assert AllRefused(segs, name, dlopen) <==> AllRefused(segs[1..], name, dlopen) by {
          if AllRefused(segs[1..], name, dlopen) {
            forall j | 0 <= j < |segs|
              ensures Refused(segs[j], name, dlopen)
            {
              if j > 0 { assert segs[j] == segs[1..][j - 1]; }
            }
          }
        }
      }
    }
  }

  /** A handle is returned exactly when some segment opens after every earlier one was refused. */
  lemma FirstOpenOpened<H>(segs: seq<string>, name: string, dlopen: string -> Option<H>, dl: H)
    ensures FirstOpen(segs, name, dlopen) == Opened(dl) <==> exists k :: OpensAt(segs, name, dlopen, dl, k)
  {
    if FirstOpen(segs, name, dlopen) == Opened(dl) {
      OpenedHasWitness(segs, name, dlopen, dl);
    }
    if exists k :: OpensAt(segs, name, dlopen, dl, k) {
      var k :| OpensAt(segs, name, dlopen, dl, k);
      WitnessOpens(segs, name, dlopen, dl, k);
    }
  }

  /** A returned handle comes from some segment after refused ones. */
  lemma {:induction false} OpenedHasWitness<H>(segs: seq<string>, name: string, dlopen: string -> Option<H>, dl: H)
    requires FirstOpen(segs, name, dlopen) == Opened(dl)
    ensures exists k :: OpensAt(segs, name, dlopen, dl, k)
  {
    if !Refused(segs[0], name, dlopen) {
      assert AllRefused(segs[..0], name, dlopen);
      assert OpensAt(segs, name, dlopen, dl, 0);
    } else {
      OpenedHasWitness(segs[1..], name, dlopen, dl);
      var k' :| OpensAt(segs[1..], name, dlopen, dl, k');
      assert segs[..k' + 1] == [segs[0]] + segs[1..][..k'];
      assert AllRefused(segs[..k' + 1], name, dlopen);
      assert segs[k' + 1] == segs[1..][k'];
      assert OpensAt(segs, name, dlopen, dl, k' + 1);
    }
  }

  /** A segment that opens after refused ones gives its handle. */
  lemma {:induction false} WitnessOpens<H>(segs: seq<string>, name: string, dlopen: string -> Option<H>, dl: H, k: nat)
    requires OpensAt(segs, name, dlopen, dl, k)
    ensures FirstOpen(segs, name, dlopen) == Opened(dl)
  {
    if k > 0 {
      assert segs[..k][0] == segs[0];
      assert Refused(segs[0], name, dlopen);
      assert segs[1..][..k - 1] == segs[..k][1..];
      assert AllRefused(segs[1..][..k - 1], name, dlopen);
      assert segs[1..][k - 1] == segs[k];
      WitnessOpens(segs[1..], name, dlopen, dl, k - 1);
    }
  }

  /** The fatal exit happens exactly when a segment without `?` is reached,
      after every earlier segment was tried and refused. */
  lemma FirstOpenInvalid<H>(segs: seq<string>, name: string, dlopen: string -> Option<H>)
    ensures FirstOpen(segs, name, dlopen) == InvalidPath <==> exists k :: MalformedAt(segs, name, dlopen, k)
  {
    if FirstOpen(segs, name, dlopen) == InvalidPath {
      InvalidHasWitness(segs, name, dlopen);
    }
    if exists k :: MalformedAt(segs, name, dlopen, k) {
      var k :| MalformedAt(segs, name, dlopen, k);
      WitnessInvalid(segs, name, dlopen, k);
    }
  }

  /** A fatal exit comes from some malformed segment after refused ones. */
  lemma {:induction false} InvalidHasWitness<H>(segs: seq<string>, name: string, dlopen: string -> Option<H>)
    requires FirstOpen(segs, name, dlopen) == InvalidPath
    ensures exists k :: MalformedAt(segs, name, dlopen, k)
  {
    if Wildcard !in segs[0] {
      assert AllRefused(segs[..0], name, dlopen);
      assert MalformedAt(segs, name, dlopen, 0);
    } else {
      InvalidHasWitness(segs[1..], name, dlopen);
      var k' :| MalformedAt(segs[1..], name, dlopen, k');
      assert segs[..k' + 1] == [segs[0]] + segs[1..][..k'];
      assert AllRefused(segs[..k' + 1], name, dlopen);
      assert segs[k' + 1] == segs[1..][k'];
      assert MalformedAt(segs, name, dlopen, k' + 1);
    }
  }

  /** A malformed segment reached after refused ones is fatal. */
  lemma {:induction false} WitnessInvalid<H>(segs: seq<string>, name: string, dlopen: string -> Option<H>, k: nat)
    requires MalformedAt(segs, name, dlopen, k)
    ensures FirstOpen(segs, name, dlopen) == InvalidPath
  {
    if k > 0 {
      assert segs[..k][0] == segs[0];
      assert Refused(segs[0], name, dlopen);
      assert segs[1..][..k - 1] == segs[..k][1..];
      assert AllRefused(segs[1..][..k - 1], name, dlopen);
      assert segs[1..][k - 1] == segs[k];
      WitnessInvalid(segs[1..], name, dlopen, k - 1);
    }
  }

  /** The three outcomes of `_try_open`, stated over the template's segments. */
  lemma TryOpenOutcomes<H>(path: string, name: string, dlopen: string -> Option<H>, dl: H)
    ensures var segs := Segments(path);
      && (TryOpen(path, name, dlopen) == Exhausted <==> AllRefused(segs, name, dlopen))
      && (TryOpen(path, name, dlopen) == Opened(dl) <==> exists k :: OpensAt(segs, name, dlopen, dl, k))
      && (TryOpen(path, name, dlopen) == InvalidPath <==> exists k :: MalformedAt(segs, name, dlopen, k))
  {
    FirstOpenExhausted(Segments(path), name, dlopen);
    FirstOpenOpened(Segments(path), name, dlopen, dl);
    FirstOpenInvalid(Segments(path), name, dlopen);
  }

  /** The candidate built from any segment of the template, plus its NUL
      terminator, fits the `strlen(path) + strlen(name)` bytes of `tmp`. */
  lemma CandidateFitsBuffer(path: string, name: string, k: nat)
    requires k < |Segments(path)|
    requires Expand(Segments(path)[k], name).Some?
    ensures |Expand(Segments(path)[k], name).value| + 1 <= |path| + |name|
  {
    var seg := Segments(path)[k];
    var i :| 0 <= i < |SplitAll(path)| && SplitAll(path)[i] == seg;
  }

  /** A template whose first segment has no `?` is fatal whatever the loader
      would have answered. */
  lemma FirstSegmentMalformed<H>(path: string, name: string, dlopen: string -> Option<H>)
    requires Segments(path) != [] && Wildcard !in Segments(path)[0]
    ensures TryOpen(path, name, dlopen) == InvalidPath
  {
  }

  /** The template `./svc/?.so;./lib/?.dll` has two segments, in order. */
  lemma EchoSegments()
    ensures Segments("./svc/?.so;./lib/?.dll") == ["./svc/?.so", "./lib/?.dll"]
  {
    var segs := ["./svc/?.so", "./lib/?.dll"];
    assert segs[1..] == ["./lib/?.dll"];
    assert Join(segs) == "./svc/?.so;./lib/?.dll";
    SegmentsOfJoin(segs);
  }

  /** A segment `prefix ? suffix` with no `?` in the prefix expands to
      `prefix name suffix`. */
  lemma ExpandAt(prefix: string, suffix: string, name: string)
    requires Wildcard !in prefix
    ensures Expand(prefix + [Wildcard] + suffix, name) == Some(prefix + name + suffix)
  {
    var seg := prefix + [Wildcard] + suffix;
    IndexOfAfter(prefix, Wildcard, suffix);
    assert seg[..|prefix|] == prefix;
    assert seg[|prefix| + 1..] == suffix;
  }

  /** With name `echo` the first segment expands to `./svc/echo.so`. */
  lemma EchoFirstCandidate()
    ensures Expand("./svc/?.so", "echo") == Some("./svc/echo.so")
  {
    assert "./svc/?.so" == "./svc/" + [Wildcard] + ".so";
    ExpandAt("./svc/", ".so", "echo");
    assert "./svc/" + "echo" + ".so" == "./svc/echo.so";
  }

  /** With name `echo` the second segment expands to `./lib/echo.dll`. */
  lemma EchoSecondCandidate()
    ensures Expand("./lib/?.dll", "echo") == Some("./lib/echo.dll")
  {
    assert "./lib/?.dll" == "./lib/" + [Wildcard] + ".dll";
    ExpandAt("./lib/", ".dll", "echo");
    assert "./lib/" + "echo" + ".dll" == "./lib/echo.dll";
  }

  /** When only `./lib/echo.dll` opens, the first candidate is tried and the
      second one is the handle returned. */
  lemma EchoOpensSecond()
    ensures TryOpen("./svc/?.so;./lib/?.dll", "echo",
                    (p: string) => if p == "./lib/echo.dll" then Some(7) else None) == Opened(7)
  {
    var dlopen := (p: string) => if p == "./lib/echo.dll" then Some(7) else None;
    var segs := ["./svc/?.so", "./lib/?.dll"];
    EchoSegments();
    EchoFirstCandidate();
    EchoSecondCandidate();
    assert segs[1..] == ["./lib/?.dll"];
  }
}
