/** The command line's string handling: which connection a host string
    names, which sources a comma list names, the URL a cluster destination
    is reached by, and the count of copied keys that ends a run. */
module Cli {
  import opened Wrappers
  import opened PyStr
  import opened Api

  // ----- resolve_host -----

  /** The three ways resolve_host connects: a redis:// or unix:// URL, a
      host and port, or a local redislite database file. */
  datatype Target = FromUrl(url: string) | HostPort(host: string, port: int) | LocalDb(path: string)

  predicate IsUrl(t: string) {
    StartsWith(t, "redis://") || StartsWith(t, "unix://")
  }

  /** resolve_host's choice of connection for a target string. Splitting
      into other than two pieces, or a port int() refuses, is the
      ValueError that sends the target to the local-file branch. */
  function ResolveHost(target: string): (r: Target)
    ensures r.FromUrl? <==> IsUrl(Strip(target))
    ensures r.FromUrl? ==> r.url == Strip(target)
    ensures r.LocalDb? ==> r.path == Strip(target)
    ensures r.HostPort? ==> ':' !in r.host
  {
    var t := Strip(target);
    if IsUrl(t) then FromUrl(t)
    else
      var parts := Split(t, ':');
      if |parts| == 2 && ParseIntPy2(parts[1]).Some? then HostPort(parts[0], ParseIntPy2(parts[1]).value)
      else LocalDb(t)
  }

  /** A stripped target is host and port exactly when it is not a URL and
      is two colon-free pieces joined by one ':' whose second piece int()
      accepts; the port is that piece's value. */
  lemma ResolveHostPort(target: string)
    ensures var t := Strip(target);
      ResolveHost(target).HostPort? <==>
        !IsUrl(t) && exists h, p :: ':' !in h && ':' !in p && t == h + [':'] + p && ParseIntPy2(p).Some?
    ensures var t := Strip(target);
      var r := ResolveHost(target);
      r.HostPort? ==> exists p :: t == r.host + [':'] + p && ParseIntPy2(p) == Some(r.port)
  {
    var t := Strip(target);
    var parts := Split(t, ':');
    if |parts| == 2 {
      JoinPair(t, ':');
    }
    if exists h, p :: ':' !in h && ':' !in p && t == h + [':'] + p && ParseIntPy2(p).Some? {
      var h, p :| ':' !in h && ':' !in p && t == h + [':'] + p && ParseIntPy2(p).Some?;
      SplitPair(h, p, ':');
    }
  }

  /** In host + ":" + digits with a colon-free host, the one ':' is the one
      after the host. */
  lemma OnlyColon(host: string, digits: string)
    requires ':' !in host && AllDigits(digits)
    ensures var t := host + [':'] + digits;
      forall i :: 0 <= i < |t| && i != |host| ==> t[i] != ':' && (i > |host| ==> IsDigit(t[i]))
  {
    var t := host + [':'] + digits;
    forall i | 0 <= i < |t| && i != |host|
      ensures t[i] != ':' && (i > |host| ==> IsDigit(t[i]))
    {
      if i < |host| {
        assert t[i] == host[i];
      } else {
        assert t[i] == digits[i - |host| - 1];
      }
    }
  }

  /** host + ":" + digits is no URL: both schemes need a '/' right after
      their ':', where a digit stands. */
  lemma HostPortNotUrl(host: string, digits: string)
    requires ':' !in host && AllDigits(digits) && |digits| >= 1
    ensures !IsUrl(host + [':'] + digits)
  {
    var t := host + [':'] + digits;
    OnlyColon(host, digits);
    assert t[|host| + 1] == digits[0];
    assert |t| < 8 || t[5] != ':' || t[6] != '/';
    assert |t| < 7 || t[4] != ':' || t[5] != '/';
  }

  /** int() reads back the decimal port, so "host:port" resolves to that
      host and port whenever the host has no ':' and does not start with
      whitespace. */
  lemma ResolveHostRoundTrip(host: string, port: nat)
    requires ':' !in host
    requires |host| > 0 ==> !IsSpace(host[0])
    ensures ResolveHost(host + [':'] + DecimalString(port)) == HostPort(host, port)
  {
    var d := DecimalString(port);
    var t := host + [':'] + d;
    assert t[|t| - 1] == d[|d| - 1];
    assert t[0] == if |host| > 0 then host[0] else ':';
    StripUnchanged(t);
    HostPortNotUrl(host, d);
    SplitPair(host, d, ':');
    DecimalRoundTrip(port);
    ParseIntPy2Extends(d);
  }

  // ----- resolve_sources -----

  /** A source as resolve_sources yields it: a file path, or a connection
      from resolve_host. */
  datatype Resolved = File(path: string) | Server(target: Target)

  /** How resolve_sources treats one stripped, non-empty segment: rdb://
      first, before the ':' test, then a bare path, then a host. */
  function ClassifySegment(seg: string): (r: Resolved)
    ensures r.File? ==> (StartsWith(seg, "rdb://") && r.path == seg[6..]) || (':' !in seg && r.path == seg)
    ensures r.Server? ==> ':' in seg && r.target == ResolveHost(seg)
  {
    if StartsWith(seg, "rdb://") then File(seg[6..])
    else if ':' !in seg then File(seg)
    else Server(ResolveHost(seg))
  }

  /** rdb:// wins over the ':' test: the rest is a file path, colons and
      all. */
  lemma RdbPrefixFirst(path: string)
    ensures ClassifySegment("rdb://" + path) == File(path)
  {
    var seg := "rdb://" + path;
    assert seg[..6] == "rdb://";
    assert seg[6..] == path;
  }

  /** The source one segment names: none when it is blank once stripped. */
  function SegmentSource(segment: string): (r: seq<Resolved>)
    ensures |r| <= 1
    ensures |r| == 0 <==> Strip(segment) == []
    ensures |r| == 1 ==> r[0] == ClassifySegment(Strip(segment))
  {
    var seg := Strip(segment);
    if |seg| < 1 then [] else [ClassifySegment(seg)]
  }

  /** f's results over xs, concatenated in order. */
  function FlatMap<T, U>(f: T -> seq<U>, xs: seq<T>): seq<U>
    decreases |xs|
  {
    if xs == [] then [] else f(xs[0]) + FlatMap(f, xs[1..])
  }

  /** At most one result per element: no more results than elements. */
  lemma {:induction false} FlatMapShort<T, U>(f: T -> seq<U>, xs: seq<T>)
    requires forall x :: |f(x)| <= 1
    ensures |FlatMap(f, xs)| <= |xs|
    decreases |xs|
  {
    if xs != [] {
      FlatMapShort(f, xs[1..]);
    }
  }

  lemma {:induction false} FlatMapAppend<T, U>(f: T -> seq<U>, a: seq<T>, b: seq<T>)
    ensures FlatMap(f, a + b) == FlatMap(f, a) + FlatMap(f, b)
    decreases |a|
  {
    if a == [] {
      assert a + b == b;
    } else {
      assert (a + b)[0] == a[0];
      assert (a + b)[1..] == a[1..] + b;
      FlatMapAppend(f, a[1..], b);
    }
  }

  /** Every result is a result of some element. */
  lemma {:induction false} FlatMapFrom<T, U>(f: T -> seq<U>, xs: seq<T>, y: U)
    requires y in FlatMap(f, xs)
    ensures exists i :: 0 <= i < |xs| && y in f(xs[i])
    decreases |xs|
  {
    if y !in f(xs[0]) {
      FlatMapFrom(f, xs[1..], y);
      var i :| 0 <= i < |xs[1..]| && y in f(xs[1..][i]);
      assert xs[1..][i] == xs[i + 1];
    }
  }

  /** Exactly one result per element: result i is element i's. */
  lemma {:induction false} FlatMapSingles<T, U>(f: T -> seq<U>, xs: seq<T>)
    requires forall i :: 0 <= i < |xs| ==> |f(xs[i])| == 1
    ensures |FlatMap(f, xs)| == |xs|
    ensures forall i :: 0 <= i < |xs| ==> FlatMap(f, xs)[i] == f(xs[i])[0]
    decreases |xs|
  {
    if xs != [] {
      var tail := xs[1..];
      assert forall i :: 0 <= i < |tail| ==> tail[i] == xs[i + 1];
      FlatMapSingles(f, tail);
      var r := FlatMap(f, xs);
      assert r == f(xs[0]) + FlatMap(f, tail);
      forall i | 0 <= i < |xs|
        ensures r[i] == f(xs[i])[0]
      {
        if i > 0 {
          assert r[i] == FlatMap(f, tail)[i - 1];
          assert tail[i - 1] == xs[i];
        }
      }
    }
  }

  /** The sources named by comma-separated segments, in order, blank ones
      dropped. */
  function ResolveSegments(segs: seq<string>): (r: seq<Resolved>)
    ensures |r| <= |segs|
  {
    FlatMapShort(SegmentSource, segs);
    FlatMap(SegmentSource, segs)
  }

  /** A segment names a source iff it is not blank. */
  predicate Names(seg: string, x: Resolved) {
    Strip(seg) != [] && x == ClassifySegment(Strip(seg))
  }

  /** Every source in r is named by one of segs. */
  predicate FromSegments(r: seq<Resolved>, segs: seq<string>) {
    forall x :: x in r ==> exists i :: 0 <= i < |segs| && Names(segs[i], x)
  }

  /** A segment's own source is one it names. */
  lemma SegmentNames(seg: string, x: Resolved)
    requires x in SegmentSource(seg)
    ensures Names(seg, x)
  {
  }

  /** Every source comes from a non-blank segment, stripped and classified. */
  lemma ResolveSegmentsFrom(segs: seq<string>)
    ensures FromSegments(ResolveSegments(segs), segs)
  {
    forall x | x in ResolveSegments(segs)
      ensures exists i :: 0 <= i < |segs| && Names(segs[i], x)
    {
      FlatMapFrom(SegmentSource, segs, x);
      var i :| 0 <= i < |segs| && x in SegmentSource(segs[i]);
      SegmentNames(segs[i], x);
    }
  }

  /** When no segment is blank, each one names exactly one source, in
      order: the segment stripped and classified. */
  lemma ResolveSegmentsNonBlank(segs: seq<string>)
    requires forall i {:trigger Strip(segs[i])} :: 0 <= i < |segs| ==> Strip(segs[i]) != []
    ensures |ResolveSegments(segs)| == |segs|
    ensures forall i {:trigger ResolveSegments(segs)[i]} :: 0 <= i < |segs| ==>
      ResolveSegments(segs)[i] == ClassifySegment(Strip(segs[i]))
  {
    FlatMapSingles(SegmentSource, segs);
  }

  /** resolve_sources: the comma list's segments, stripped, blank ones
      skipped, each classified. */
  function ResolveSources(srcstring: string): (r: seq<Resolved>)
    ensures |r| <= Occurrences(srcstring, ',') + 1
  {
    ResolveSegments(Split(srcstring, ','))
  }

  /** Every source resolve_sources yields is a non-blank piece of the comma
      list, stripped and classified. */
  lemma ResolveSourcesFrom(srcstring: string)
    ensures FromSegments(ResolveSources(srcstring), Split(srcstring, ','))
  {
    var parts := Split(srcstring, ',');
    assert ResolveSources(srcstring) == ResolveSegments(parts);
    ResolveSegmentsFrom(parts);
  }

  /** Segments are resolved one by one and in order: the sources of a
      concatenation are the sources of each part, concatenated. */
  lemma ResolveSegmentsAppend(a: seq<string>, b: seq<string>)
    ensures ResolveSegments(a + b) == ResolveSegments(a) + ResolveSegments(b)
  {
    FlatMapAppend(SegmentSource, a, b);
  }

  /** A blank segment resolves to nothing, so a trailing comma (or one
      followed by whitespace only) changes nothing. */
  lemma ResolveSourcesTrailingComma(srcstring: string)
    ensures ResolveSources(srcstring + [',']) == ResolveSources(srcstring)
  {
    SplitTrailingSep(srcstring, ',');
    ResolveSegmentsAppend(Split(srcstring, ','), [[]]);
    assert SegmentSource([]) == [];
  }

  /** A plain path: stripped, non-empty, and free of ',' and ':'. */
  predicate PlainPath(p: string) {
    |p| > 0 && !IsSpace(p[0]) && !IsSpace(p[|p| - 1]) && ',' !in p && ':' !in p
  }

  /** Plain paths joined by commas come back as those file paths, in
      order. */
  lemma {:induction false} ResolvePlainPaths(paths: seq<string>)
    requires |paths| >= 1
    requires forall i :: 0 <= i < |paths| ==> PlainPath(paths[i])
    ensures ResolveSources(Join(paths, ',')) == seq(|paths|, i requires 0 <= i < |paths| => File(paths[i]))
  {
    SplitJoin(paths, ',');
    forall i | 0 <= i < |paths|
      ensures Strip(paths[i]) == paths[i] && ClassifySegment(paths[i]) == File(paths[i])
    {
      PlainSegment(paths[i]);
    }
    ResolveSegmentsNonBlank(paths);
  }

  /** A plain path is its own file source. */
  lemma PlainSegment(p: string)
    requires PlainPath(p)
    ensures Strip(p) == p && ClassifySegment(p) == File(p)
    ensures SegmentSource(p) == [File(p)]
  {
    StripUnchanged(p);
    assert |p| < 6 || p[3] != ':';
  }

  // ----- resolve_destination -----

  predicate HasScheme(d: string) {
    StartsWith(d, "redis://") || StartsWith(d, "rediss://") || StartsWith(d, "unix://")
  }

  /** The URL resolve_destination gives the cluster client: the destination
      string as it is when it already has a scheme, else with redis://
      before it. */
  function ClusterUrl(dststring: string): (r: string)
    ensures HasScheme(r)
    ensures r == dststring <==> HasScheme(dststring)
    ensures !HasScheme(dststring) ==> r == "redis://" + dststring
  {
    if HasScheme(dststring) then dststring
    else
      var r := "redis://" + dststring;
      assert r[..8] == "redis://";
      r
  }

  /** Building the cluster URL twice changes nothing. */
  lemma ClusterUrlIdempotent(dststring: string)
    ensures ClusterUrl(ClusterUrl(dststring)) == ClusterUrl(dststring)
  {
  }

  /** The destination as process connects to it. */
  datatype Destination = Direct(target: Target) | Cluster(url: string)

  /** resolve_destination: the host connection itself, or a cluster client
      when that server reports cluster mode; clusterEnabled is the server's
      cluster_enabled field. In a dry run there is no destination. */
  function ResolveDestination(dststring: string, clusterEnabled: bool, dryrun: bool): (r: Option<Destination>)
    ensures r.None? <==> dryrun
    ensures r.Some? && r.value.Direct? ==> !clusterEnabled && r.value.target == ResolveHost(dststring)
    ensures r.Some? && r.value.Cluster? ==> clusterEnabled && r.value.url == ClusterUrl(dststring)
    ensures r.Some? && r.value.Cluster? ==> HasScheme(r.value.url)
  {
    if dryrun then None
    else if !clusterEnabled then Some(Direct(ResolveHost(dststring)))
    else Some(Cluster(ClusterUrl(dststring)))
  }

  // ----- process -----

  /** What process writes to out while counting n keys: "\r" and the count
      at every thousandth key, unless keys are printed one per line. */
  function Progress(n: nat, verbose: bool): string
    decreases n
  {
    if n == 0 then []
    else Progress(n - 1, verbose) + (if !verbose && n % 1000 == 0 then "\r" + DecimalString(n) else [])
  }

  /** The closing line of a run. */
  function Report(n: nat): string {
    "\n\nprocessed " + DecimalString(n) + " keys\n"
  }

  /** One progress mark per full thousand keys, none when verbose. */
  lemma {:induction false} ProgressMarks(n: nat, verbose: bool)
    ensures Occurrences(Progress(n, verbose), '\r') == if verbose then 0 else n / 1000
    decreases n
  {
    if n > 0 {
      ProgressMarks(n - 1, verbose);
      var tail := if !verbose && n % 1000 == 0 then "\r" + DecimalString(n) else [];
      OccurrencesAppend(Progress(n - 1, verbose), tail, '\r');
      if !verbose && n % 1000 == 0 {
        NoReturnInDigits(DecimalString(n));
        OccurrencesAppend("\r", DecimalString(n), '\r');
      }
    }
  }

  lemma {:induction false} OccurrencesAppend(a: string, b: string, c: char)
    ensures Occurrences(a + b, c) == Occurrences(a, c) + Occurrences(b, c)
    decreases |a|
  {
    if a == [] {
      assert a + b == b;
    } else {
      assert (a + b)[1..] == a[1..] + b;
      OccurrencesAppend(a[1..], b, c);
    }
  }

  lemma {:induction false} NoReturnInDigits(s: string)
    requires AllDigits(s)
    ensures Occurrences(s, '\r') == 0
    decreases |s|
  {
    if s != [] {
      NoReturnInDigits(s[1..]);
    }
  }

  /** The count in the closing line reads back as the number of keys. */
  lemma ReportReadsBack(n: nat)
    ensures var r := Report(n);
      |r| > 17 && r[..12] == "\n\nprocessed " && r[|r| - 6..] == " keys\n"
      && ParseInt(r[12..|r| - 6]) == Some(n)
  {
    var r := Report(n);
    assert r[12..|r| - 6] == DecimalString(n);
    DecimalRoundTrip(n);
  }

  /** The counting loop of process over the keys it is given (in the
      source, those multi_copy yields): processed is the number of keys,
      and out holds the progress marks and the closing line. */
  method Process(keys: seq<Key>, verbose: bool) returns (processed: nat, out: string)
    ensures processed == |keys|
    ensures out == Progress(|keys|, verbose) + Report(|keys|)
  {
    processed := 0;
    out := [];
    for i := 0 to |keys|
      invariant processed == i
      invariant out == Progress(i, verbose)
    {
      processed := processed + 1;
      if !verbose && processed % 1000 == 0 {
        out := out + "\r" + DecimalString(processed);
      }
    }
    out := out + "\n\nprocessed " + DecimalString(processed) + " keys\n";
  }
}
