/** The collector's storage scheme: the `data/` directory used as a
    database, one file per submission named `<hostname>_<YYYYMMDD_HHMMSS>.json`,
    and the three HTTP handlers that write and read it. The directory is a
    map from bare filenames to the records stored in them. */
module Server {
  import opened Strings
  import opened Stamps
  import opened Telemetry

  /** An HTTP reply: a 200 with a body, or an error status with its detail. */
  datatype Reply<T> = Ok(body: T) | HttpError(status: int, detail: string)

  /** The storage directory's listing and contents. */
  type Directory = map<string, SystemInfo>

  /** `f"{hostname}_{current_time}.json"` */
  function Filename(hostname: string, stamp: string): (f: string)
    ensures |f| == |hostname| + |stamp| + 6 && hostname <= f && f[|hostname|] == '_'
    ensures f[|hostname| + 1..|f| - 5] == stamp && EndsWith(f, ".json")
  {
    hostname + "_" + stamp + ".json"
  }

  /** The directory after `receive_system_info` stored `info` at clock
      reading `now`: the file of that name is created or overwritten. */
  function Ingest(dir: Directory, info: SystemInfo, now: DateTime): (d: Directory)
    requires now.Valid()
    ensures d.Keys == dir.Keys + {Filename(info.hostname, Stamp(now))}
    ensures d[Filename(info.hostname, Stamp(now))] == info
  {
    dir[Filename(info.hostname, Stamp(now)) := info]
  }

  /** The acknowledgement body of a successful submission. */
  function Acknowledgement(): (r: Dict)
    ensures r.Keys == {"status", "message"} && r["status"] == Str("success")
  {
    map["status" := Str("success"), "message" := Str("System information received and saved")]
  }

  // ---------------------------------------------------------------------
  // Names the scheme produces.

  /** `<host>_<8 digits>_<6 digits>.json`, read from the right: the stamp and
      the suffix have fixed widths, so the host is everything before them. */
  predicate IsSnapshotName(f: string)
  {
    && |f| >= 21
    && f[|f| - 21] == '_'
    && StampShaped(f[|f| - 20..|f| - 5])
    && f[|f| - 5..] == ".json"
  }

  function SnapshotHost(f: string): string
    requires IsSnapshotName(f)
  {
    f[..|f| - 21]
  }

  function SnapshotStamp(f: string): string
    requires IsSnapshotName(f)
  {
    f[|f| - 20..|f| - 5]
  }

  /** Every name ingestion writes is a snapshot name, and the host and the
      stamp can be read back from it. */
  lemma NameRoundTrip(hostname: string, t: DateTime)
    requires t.Valid()
    ensures var f := Filename(hostname, Stamp(t));
      IsSnapshotName(f) && SnapshotHost(f) == hostname && SnapshotStamp(f) == Stamp(t)
  {
    StampShape(t);
    var s := Stamp(t);
    var f := Filename(hostname, s);
    assert f[|f| - 21] == '_';
    assert f[|f| - 20..|f| - 5] == s;
    assert f[|f| - 5..] == ".json";
    assert f[..|f| - 21] == hostname;
  }

  /** Conversely, every snapshot name is the name ingestion gives its host
      and stamp. */
  lemma SnapshotNameIsFilename(f: string)
    requires IsSnapshotName(f)
    ensures f == Filename(SnapshotHost(f), SnapshotStamp(f))
  {
    var n := |f|;
    assert f == f[..n - 21] + [f[n - 21]] + f[n - 20..n - 5] + f[n - 5..];
  }

  /** Two submissions share a file exactly when they come from the same host
      in the same second. */
  lemma FilenameCollision(h1: string, h2: string, t1: DateTime, t2: DateTime)
    requires t1.Valid() && t2.Valid()
    ensures Filename(h1, Stamp(t1)) == Filename(h2, Stamp(t2))
        <==> h1 == h2 && Seconds(t1) == Seconds(t2)
  {
    NameRoundTrip(h1, t1);
    NameRoundTrip(h2, t2);
    StampOrder(t1, t2);
  }

  /** Files of one host compare like their stamps. */
  lemma SameHostOrder(hostname: string, s1: string, s2: string)
    requires |s1| == |s2|
    ensures Below(Filename(hostname, s1), Filename(hostname, s2)) <==> Below(s1, s2)
  {
    var p := hostname + "_";
    BelowFixedWidth(p + s1, p + s2, ".json", ".json");
    BelowIrreflexive(".json");
    BelowFixedWidth(p, p, s1, s2);
    BelowIrreflexive(p);
  }

  // ---------------------------------------------------------------------
  // Ingestion.

  /** Ingestion adds or overwrites exactly one entry, under exactly the
      computed name, and leaves every other entry as it was. */
  lemma IngestWritesOneFile(dir: Directory, info: SystemInfo, now: DateTime)
    requires now.Valid()
    ensures var name := Filename(info.hostname, Stamp(now));
      && Ingest(dir, info, now).Keys == dir.Keys + {name}
      && Ingest(dir, info, now)[name] == info
      && (forall f :: f in dir && f != name ==> Ingest(dir, info, now)[f] == dir[f])
      && |Ingest(dir, info, now)| == if name in dir then |dir| else |dir| + 1
  {
  }

  /** A second submission of the same host within the same second replaces
      the first. */
  lemma SameSecondOverwrites(dir: Directory, first: SystemInfo, second: SystemInfo,
                             t1: DateTime, t2: DateTime)
    requires t1.Valid() && t2.Valid()
    requires first.hostname == second.hostname && Seconds(t1) == Seconds(t2)
    ensures Ingest(Ingest(dir, first, t1), second, t2) == Ingest(dir, second, t2)
  {
    FilenameCollision(first.hostname, second.hostname, t1, t2);
  }

  /** Submissions that differ in host or in second are both kept. */
  lemma DistinctSubmissionsKept(dir: Directory, first: SystemInfo, second: SystemInfo,
                                t1: DateTime, t2: DateTime)
    requires t1.Valid() && t2.Valid()
    requires first.hostname != second.hostname || Seconds(t1) != Seconds(t2)
    ensures var d := Ingest(Ingest(dir, first, t1), second, t2);
      d[Filename(first.hostname, Stamp(t1))] == first && d[Filename(second.hostname, Stamp(t2))] == second
  {
    FilenameCollision(first.hostname, second.hostname, t1, t2);
  }

  // ---------------------------------------------------------------------
  // `max` over a listing.

  /** `m` sorts after every other name of `names`. */
  predicate IsGreatest(m: string, names: set<string>)
  {
    forall n :: n in names && n != m ==> Below(n, m)
  }

  lemma {:induction false} GreatestExists(names: set<string>)
    requires names != {}
    ensures exists m :: m in names && IsGreatest(m, names)
    decreases |names|
  {
    var x :| x in names;
    var rest := names - {x};
    if rest == {} {
      assert names == {x};
      assert IsGreatest(x, names);
    } else {
      GreatestExists(rest);
      var m :| m in rest && IsGreatest(m, rest);
      if Below(m, x) {
        forall n | n in names && n != x ensures Below(n, x) {
          if n != m { BelowTransitive(n, m, x); }
        }
        assert IsGreatest(x, names);
      } else {
        BelowTotal(m, x);
        assert IsGreatest(m, names);
      }
    }
  }

  /** A greatest name is unique. */
  lemma GreatestUnique(m1: string, m2: string, names: set<string>)
    requires m1 in names && IsGreatest(m1, names)
    requires m2 in names && IsGreatest(m2, names)
    ensures m1 == m2
  {
    if m1 != m2 {
      BelowAsymmetric(m1, m2);
    }
  }

  lemma AllGreatestUnique(names: set<string>)
    ensures forall m1, m2 ::
              (m1 in names && IsGreatest(m1, names) && m2 in names && IsGreatest(m2, names) ==> m1 == m2)
  {
    forall m1, m2 | m1 in names && IsGreatest(m1, names) && m2 in names && IsGreatest(m2, names)
      ensures m1 == m2
    {
      GreatestUnique(m1, m2, names);
    }
  }

  /** `max(names)` under Python's string order. */
  function Greatest(names: set<string>): (m: string)
    requires names != {}
    ensures m in names && IsGreatest(m, names)
  {
    GreatestExists(names);
    AllGreatestUnique(names);
    var m :| m in names && IsGreatest(m, names); m
  }

  // ---------------------------------------------------------------------
  // `GET /api/system-info/{hostname}`, as written.

  /** The listing filtered by `f.startswith(hostname + "_")`. */
  function Matching(dir: Directory, hostname: string): (files: set<string>)
    ensures files <= dir.Keys
    ensures forall f :: f in dir && hostname + "_" <= f ==> f in files
    ensures forall f :: f in files ==> hostname + "_" <= f
  {
    set f | f in dir && hostname + "_" <= f
  }

  /** `get_system_info`: 404 when no file name starts with `hostname + "_"`,
      otherwise the record in the greatest such file. */
  function Latest(dir: Directory, hostname: string): (r: Reply<SystemInfo>)
    ensures r.HttpError? <==> forall f :: f in dir ==> !(hostname + "_" <= f)
    ensures r.HttpError? ==> r.status == 404 && r.detail == "No data found for hostname: " + hostname
    ensures r.Ok? ==> exists f ::
      (f in dir && hostname + "_" <= f && r.body == dir[f]
       && forall g :: g in dir && hostname + "_" <= g && g != f ==> Below(g, f))
  {
    var files := Matching(dir, hostname);
    if files == {} then
      assert forall f :: f in dir && hostname + "_" <= f ==> f in files;
      HttpError(404, "No data found for hostname: " + hostname)
    else
      Ok(dir[Greatest(files)])
  }

  /** When every file the query matches is a snapshot of `hostname` taken at
      a known clock reading, the query returns the one with the greatest
      reading. */
  lemma LatestIsNewest(dir: Directory, hostname: string, taken: map<string, DateTime>)
    requires forall f :: f in dir && hostname + "_" <= f ==>
      f in taken && taken[f].Valid() && f == Filename(hostname, Stamp(taken[f]))
    requires Latest(dir, hostname).Ok?
    ensures exists f ::
      (f in dir && hostname + "_" <= f && Latest(dir, hostname).body == dir[f]
       && forall g :: g in dir && hostname + "_" <= g ==> Seconds(taken[g]) <= Seconds(taken[f]))
  {
    var f :| f in dir && hostname + "_" <= f && Latest(dir, hostname).body == dir[f]
      && forall g :: g in dir && hostname + "_" <= g && g != f ==> Below(g, f);
    forall g | g in dir && hostname + "_" <= g ensures Seconds(taken[g]) <= Seconds(taken[f]) {
      if g != f {
        StampOrder(taken[g], taken[f]);
        SameHostOrder(hostname, Stamp(taken[g]), Stamp(taken[f]));
      }
    }
  }

  /** Round trip: a host whose prefix no other host's files share, posting a
      snapshot stamped after all of its stored ones, gets that snapshot back. */
  lemma LatestAfterIngest(dir: Directory, info: SystemInfo, now: DateTime)
    requires now.Valid()
    requires forall f :: f in dir && info.hostname + "_" <= f ==>
      IsSnapshotName(f) && SnapshotHost(f) == info.hostname && Below(SnapshotStamp(f), Stamp(now))
    ensures Latest(Ingest(dir, info, now), info.hostname) == Ok(info)
  {
    var h := info.hostname;
    var d := Ingest(dir, info, now);
    var name := Filename(h, Stamp(now));
    var files := Matching(d, h);
    assert name in files;
    forall g | g in files && g != name ensures Below(g, name) {
      SnapshotNameIsFilename(g);
      SameHostOrder(h, SnapshotStamp(g), Stamp(now));
    }
    GreatestUnique(Greatest(files), name, files);
  }

  // ---------------------------------------------------------------------
  // `GET /api/hosts`, as written.

  /** The loop's filter: `"_" in file and file.endswith(".json")`. */
  predicate ListedAsHost(f: string)
    ensures ListedAsHost(f) ==> Before(f, '_') != f && |f| >= 6
  {
    '_' in f && EndsWith(f, ".json")
  }

  /** The hosts the listing yields: `file.split("_")[0]` of every listed file. */
  function HostSet(names: set<string>): (hosts: set<string>)
    ensures forall f :: f in names && ListedAsHost(f) ==> Before(f, '_') in hosts
    ensures forall h :: h in hosts ==> '_' !in h
  {
    set f | f in names && ListedAsHost(f) :: Before(f, '_')
  }

  predicate Distinct(s: seq<string>)
  {
    forall i, j :: 0 <= i < j < |s| ==> s[i] != s[j]
  }

  lemma HostSetAdd(names: set<string>, f: string)
    ensures HostSet(names + {f}) == HostSet(names) + (if ListedAsHost(f) then {Before(f, '_')} else {})
  {
  }

  /** Ingesting a record adds the text before the first `_` of its hostname
      to the host list and nothing else. */
  lemma HostsAfterIngest(dir: Directory, info: SystemInfo, now: DateTime)
    requires now.Valid()
    ensures HostSet(Ingest(dir, info, now).Keys) == HostSet(dir.Keys) + {Before(info.hostname, '_')}
  {
    var name := Filename(info.hostname, Stamp(now));
    assert name == info.hostname + ['_'] + (Stamp(now) + ".json");
    BeforeJoined(info.hostname, '_', Stamp(now) + ".json");
    assert name[|info.hostname|] == '_';
    assert ListedAsHost(name);
    assert Ingest(dir, info, now).Keys == dir.Keys + {name};
    HostSetAdd(dir.Keys, name);
  }

  /** Naming and extraction round-trip for a hostname without `_`. */
  lemma HostListedAfterIngest(dir: Directory, info: SystemInfo, now: DateTime)
    requires now.Valid()
    requires '_' !in info.hostname
    ensures info.hostname in HostSet(Ingest(dir, info, now).Keys)
  {
    HostsAfterIngest(dir, info, now);
    assert Before(info.hostname, '_') == info.hostname;
  }

  // ---------------------------------------------------------------------
  // The handlers over the directory.

  /** The `data/` directory and the handlers of the collector's HTTP API. */
  class DataDirectory {
    var files: Directory

    constructor ()
      ensures files == map[]
    {
      files := map[];
    }

    /** `POST /api/system-info`: store the validated record under its host
        and the server's clock reading, overwriting a file of the same name. */
    method ReceiveSystemInfo(info: SystemInfo, now: DateTime) returns (r: Reply<Dict>)
      requires now.Valid()
      modifies this
      ensures files == Ingest(old(files), info, now)
      ensures r == Ok(Acknowledgement())
    {
      var filename := Filename(info.hostname, Stamp(now));
      files := files[filename := info];
      r := Ok(Acknowledgement());
    }

    /** `GET /api/hosts`: the distinct hosts of the listing, in no particular
        order. */
    method GetAllHosts() returns (hosts: seq<string>)
      ensures forall h :: h in hosts <==> h in HostSet(files.Keys)
      ensures Distinct(hosts)
    {
      var hostnames: set<string> := {};
      var listing := files.Keys;
      var rest := listing;
      while rest != {}
        invariant rest <= listing
        invariant hostnames == HostSet(listing - rest)
        decreases |rest|
      {
        var file :| file in rest;
        HostSetAdd(listing - rest, file);
        if '_' in file && EndsWith(file, ".json") {
          hostnames := hostnames + {Before(file, '_')};
        }
        ghost var seen := listing - rest;
        rest := rest - {file};
        assert listing - rest == seen + {file};
      }
      assert listing - rest == listing;
      hosts := ListOf(hostnames);
    }
  }

  /** `list(s)`: every element of the set once, in no particular order. */
  method ListOf(s: set<string>) returns (xs: seq<string>)
    ensures forall x :: x in xs <==> x in s
    ensures Distinct(xs)
  {
    xs := [];
    var rest := s;
    while rest != {}
      invariant rest <= s
      invariant forall x :: x in xs <==> x in s - rest
      invariant Distinct(xs)
      decreases |rest|
    {
      var x :| x in rest;
      assert x !in xs;
      xs := xs + [x];
      rest := rest - {x};
    }
  }

  // ---------------------------------------------------------------------
  // Corrected readings of the file names (see the Findings in README.md).

  /** The snapshots of exactly `hostname`, recognised by reading the fixed
      width stamp and suffix from the right. */
  function SnapshotsOf(dir: Directory, hostname: string): set<string>
  {
    set f | f in dir && IsSnapshotName(f) && SnapshotHost(f) == hostname
  }

  /** Latest snapshot of exactly `hostname`: files of a host whose name
      merely begins with `hostname + "_"` are not considered. */
  function LatestOfHost(dir: Directory, hostname: string): (r: Reply<SystemInfo>)
    ensures r.HttpError? <==> forall f :: f in dir && IsSnapshotName(f) ==> SnapshotHost(f) != hostname
    ensures r.HttpError? ==> r.status == 404 && r.detail == "No data found for hostname: " + hostname
    ensures r.Ok? ==> exists f ::
      (f in dir && IsSnapshotName(f) && SnapshotHost(f) == hostname
       && r.body == dir[f] && IsGreatest(f, SnapshotsOf(dir, hostname)))
  {
    var files := SnapshotsOf(dir, hostname);
    if files == {} then
      assert forall f :: f in dir && IsSnapshotName(f) && SnapshotHost(f) == hostname ==> f in files;
      HttpError(404, "No data found for hostname: " + hostname)
    else
      Ok(dir[Greatest(files)])
  }

  /** Round trip with no condition on other hosts: a snapshot stamped after
      the host's stored ones is what the corrected query returns. */
  lemma LatestOfHostAfterIngest(dir: Directory, info: SystemInfo, now: DateTime)
    requires now.Valid()
    requires forall f :: f in dir && IsSnapshotName(f) && SnapshotHost(f) == info.hostname ==>
      Below(SnapshotStamp(f), Stamp(now))
    ensures LatestOfHost(Ingest(dir, info, now), info.hostname) == Ok(info)
  {
    var h := info.hostname;
    var d := Ingest(dir, info, now);
    var name := Filename(h, Stamp(now));
    NameRoundTrip(h, now);
    var files := SnapshotsOf(d, h);
    assert name in files;
    forall g | g in files && g != name ensures Below(g, name) {
      SnapshotNameIsFilename(g);
      SameHostOrder(h, SnapshotStamp(g), Stamp(now));
    }
    GreatestUnique(Greatest(files), name, files);
  }

  /** The hosts read from the right of every snapshot name. */
  function SnapshotHosts(names: set<string>): set<string>
  {
    set f | f in names && IsSnapshotName(f) :: SnapshotHost(f)
  }

  /** Ingesting a record lists its full hostname, underscores included. */
  lemma SnapshotHostsAfterIngest(dir: Directory, info: SystemInfo, now: DateTime)
    requires now.Valid()
    ensures SnapshotHosts(Ingest(dir, info, now).Keys) == SnapshotHosts(dir.Keys) + {info.hostname}
  {
    var name := Filename(info.hostname, Stamp(now));
    NameRoundTrip(info.hostname, now);
    assert Ingest(dir, info, now).Keys == dir.Keys + {name};
  }

  // ---------------------------------------------------------------------
  // The as-written handlers on hostnames that contain `_`.

  /** A record of host `a` read back as host `a_b`'s: `"a_b_..." > "a_2..."`. */
  lemma LatestReturnsOtherHost(ofA: SystemInfo, ofAB: SystemInfo)
    requires ofA.hostname == "a" && ofAB.hostname == "a_b"
    ensures var earlier := DateTime(2024, 1, 1, 0, 0, 0, 0);
      var later := DateTime(2024, 1, 1, 0, 0, 1, 0);
      var dir := Ingest(Ingest(map[], ofAB, earlier), ofA, later);
      Latest(dir, "a") == Ok(ofAB) && Latest(dir, "a") != Ok(ofA)
  {
    var earlier := DateTime(2024, 1, 1, 0, 0, 0, 0);
    var later := DateTime(2024, 1, 1, 0, 0, 1, 0);
    var nameAB := Filename("a_b", Stamp(earlier));
    var nameA := Filename("a", Stamp(later));
    var dir := Ingest(Ingest(map[], ofAB, earlier), ofA, later);
    assert nameA[2] == '2' by { assert Stamp(later)[0] == '2'; }
    assert nameAB[..4] == "a_b_";
    assert Below(nameA, nameAB) by {
      assert nameA[0] == nameAB[0] && nameA[1] == nameAB[1];
      assert nameA[1..][1..][0] == '2' && nameAB[1..][1..][0] == 'b';
    }
    assert nameA != nameAB by { assert nameA[2] != nameAB[2]; }
    assert dir.Keys == {nameAB, nameA};
    var files := Matching(dir, "a");
    assert files == {nameAB, nameA};
    assert IsGreatest(nameAB, files);
    GreatestUnique(Greatest(files), nameAB, files);
  }

  /** The clock is local wall time: when it falls back between two posts of
      one host, the later post has the smaller stamp and the query returns
      the earlier record. */
  lemma LatestAfterClockStepsBack(first: SystemInfo, second: SystemInfo)
    requires first.hostname == "h" && second.hostname == "h" && first != second
    ensures var before := DateTime(2024, 11, 3, 1, 30, 0, 0);
      var after := DateTime(2024, 11, 3, 1, 10, 0, 0);
      var dir := Ingest(Ingest(map[], first, before), second, after);
      Latest(dir, "h") == Ok(first) && Latest(dir, "h") != Ok(second)
  {
    var before := DateTime(2024, 11, 3, 1, 30, 0, 0);
    var after := DateTime(2024, 11, 3, 1, 10, 0, 0);
    var nameFirst := Filename("h", Stamp(before));
    var nameSecond := Filename("h", Stamp(after));
    var dir := Ingest(Ingest(map[], first, before), second, after);
    assert Below(nameSecond, nameFirst) by {
      StampShape(before);
      StampShape(after);
      StampTupleOrder(after, before);
      SameHostOrder("h", Stamp(after), Stamp(before));
    }
    BelowIrreflexive(nameFirst);
    assert dir.Keys == {nameFirst, nameSecond};
    var files := Matching(dir, "h");
    assert files == {nameFirst, nameSecond};
    assert IsGreatest(nameFirst, files);
    GreatestUnique(Greatest(files), nameFirst, files);
  }

  /** A host named `a_b` is listed as `a`. */
  lemma HostListTruncates(info: SystemInfo, now: DateTime)
    requires now.Valid() && info.hostname == "a_b"
    ensures HostSet(Ingest(map[], info, now).Keys) == {"a"}
  {
    var empty: Directory := map[];
    assert Before("a_b", '_') == "a" by {
      assert "a_b" == "a" + ['_'] + "b";
      BeforeJoined("a", '_', "b");
    }
    assert HostSet(empty.Keys) == {};
    HostsAfterIngest(empty, info, now);
  }
}
