/**
 The fixture scenarios of apt-world's unit tests, as stanza sequences chosen
 to match what each test expects, and the results the model gives for them.
 */
module Scenarios {
  import opened Stanzas
  import opened Integers
  import opened StringOrder
  import opened AptWorld

  function WithStatus(name: string, status: string): Stanza
  {
    map[PackageField := name, StatusField := status]
  }

  /** The status of an installed package. */
  const OkInstalled := "install ok installed"

  function Installed(name: string): Stanza
  {
    WithStatus(name, OkInstalled)
  }

  function Marked(name: string, flag: string): Stanza
  {
    map[PackageField := name, AutoInstalledField := flag]
  }

  /** Four installed packages. */
  const StatusBasic: seq<Stanza> := [
    Installed("libc6:amd64"),
    Installed("python3-requests:all"),
    Installed("vim-tiny:amd64"),
    Installed("essential-tool:amd64")
  ]

  /** libc6 pulled in automatically, python3-requests explicitly manual. */
  const EstatesBasic: seq<Stanza> := [
    Marked("libc6:amd64", "1"),
    Marked("python3-requests:all", "0")
  ]

  /** A stanza without `Package`, one without `Status`, and one good package. */
  const StatusMalformed: seq<Stanza> := [
    map[StatusField := "install ok installed"],
    map[PackageField := "missing-status"],
    Installed("good-package:all")
  ]

  /** A stanza without `Package`, a non-integer flag, and one good entry. */
  const EstatesMalformed: seq<Stanza> := [
    map[AutoInstalledField := "1"],
    Marked("bad-value:all", "maybe"),
    Marked("good-auto:amd64", "1")
  ]

  /** Three installed packages, every one of them marked automatic. */
  const StatusAllAuto: seq<Stanza> := [
    Installed("core-lib:amd64"),
    Installed("another-lib:all"),
    Installed("helper-util:amd64")
  ]

  /** A removed package with its configuration left behind, and one never installed. */
  const StatusNoneInstalled: seq<Stanza> := [
    WithStatus("old-tool:amd64", "deinstall ok config-files"),
    WithStatus("never-used:all", "install ok not-installed")
  ]

  const EstatesAllAuto: seq<Stanza> := [
    Marked("core-lib:amd64", "1"),
    Marked("another-lib:all", "1"),
    Marked("helper-util:amd64", "1")
  ]

  lemma InstalledStep(before: seq<Stanza>, name: string, status: string)
    requires IsInstalledStatus(status)
    ensures InstalledOf(before + [WithStatus(name, status)]) == InstalledOf(before) + {name}
  {
    assert (before + [WithStatus(name, status)])[..|before|] == before;
  }

  lemma MarkStep(before: seq<Stanza>, name: string, flag: string, v: int)
    requires ParseInteger(flag) == Some(v) && (v == 0 || v == 1)
    ensures AutoMapOf(before + [Marked(name, flag)]) == AutoMapOf(before)[name := v]
  {
    assert (before + [Marked(name, flag)])[..|before|] == before;
  }

  lemma ThreeInstalled(a: string, b: string, c: string, status: string)
    requires IsInstalledStatus(status)
    ensures InstalledOf([WithStatus(a, status), WithStatus(b, status), WithStatus(c, status)]) == {a, b, c}
  {
    var sa, sb, sc := WithStatus(a, status), WithStatus(b, status), WithStatus(c, status);
    InstalledStep([], a, status);
    InstalledStep([sa], b, status);
    InstalledStep([sa, sb], c, status);
    assert [] + [sa] == [sa];
    assert [sa] + [sb] == [sa, sb];
    assert [sa, sb] + [sc] == [sa, sb, sc];
  }

  lemma FourInstalled(a: string, b: string, c: string, d: string, status: string)
    requires IsInstalledStatus(status)
    ensures InstalledOf([WithStatus(a, status), WithStatus(b, status), WithStatus(c, status), WithStatus(d, status)])
      == {a, b, c, d}
  {
    var sa, sb, sc, sd := WithStatus(a, status), WithStatus(b, status), WithStatus(c, status), WithStatus(d, status);
    ThreeInstalled(a, b, c, status);
    InstalledStep([sa, sb, sc], d, status);
    assert [sa, sb, sc] + [sd] == [sa, sb, sc, sd];
  }

  lemma BasicInstalledSet()
    ensures InstalledOf(StatusBasic) ==
      {"libc6:amd64", "python3-requests:all", "vim-tiny:amd64", "essential-tool:amd64"}
  {
    InstalledStatusesAccepted();
    FourInstalled("libc6:amd64", "python3-requests:all", "vim-tiny:amd64", "essential-tool:amd64", OkInstalled);
  }

  lemma TwoMarks(a: string, fa: string, va: int, b: string, fb: string, vb: int)
    requires ParseInteger(fa) == Some(va) && (va == 0 || va == 1)
    requires ParseInteger(fb) == Some(vb) && (vb == 0 || vb == 1)
    ensures AutoMapOf([Marked(a, fa), Marked(b, fb)]) == map[a := va, b := vb]
  {
    MarkStep([], a, fa, va);
    MarkStep([Marked(a, fa)], b, fb, vb);
    assert [] + [Marked(a, fa)] == [Marked(a, fa)];
    assert [Marked(a, fa)] + [Marked(b, fb)] == [Marked(a, fa), Marked(b, fb)];
  }

  lemma BasicAutoMap()
    ensures AutoMapOf(EstatesBasic) == map["libc6:amd64" := 1, "python3-requests:all" := 0]
  {
    AcceptedSpellings();
    TwoMarks("libc6:amd64", "1", 1, "python3-requests:all", "0", 0);
  }

  lemma BasicExpectedSorted()
    ensures StrictlyAscending(["essential-tool:amd64", "python3-requests:all", "vim-tiny:amd64"])
  {
  }

  lemma BasicExpectedMembers()
    ensures forall name :: name in ["essential-tool:amd64", "python3-requests:all", "vim-tiny:amd64"] <==>
      name in {"libc6:amd64", "python3-requests:all", "vim-tiny:amd64", "essential-tool:amd64"} &&
      IsManual(map["libc6:amd64" := 1, "python3-requests:all" := 0], name)
  {
  }

  /** Installed packages marked 0 or not marked at all are listed, sorted; the one marked 1 is not. */
  lemma BasicScenario(r: seq<string>)
    requires StrictlyAscending(r)
    requires forall name :: name in r <==>
      name in InstalledOf(StatusBasic) && IsManual(AutoMapOf(EstatesBasic), name)
    ensures r == ["essential-tool:amd64", "python3-requests:all", "vim-tiny:amd64"]
  {
    BasicInstalledSet();
    BasicAutoMap();
    BasicExpectedSorted();
    BasicExpectedMembers();
    ClassificationDeterministic(InstalledOf(StatusBasic), AutoMapOf(EstatesBasic), r,
      ["essential-tool:amd64", "python3-requests:all", "vim-tiny:amd64"]);
  }

  lemma FullExpectedSorted()
    ensures StrictlyAscending(["essential-tool:amd64", "libc6:amd64", "python3-requests:all", "vim-tiny:amd64"])
  {
  }

  lemma FullExpectedMembers()
    ensures forall name :: name in ["essential-tool:amd64", "libc6:amd64", "python3-requests:all", "vim-tiny:amd64"] <==>
      name in {"libc6:amd64", "python3-requests:all", "vim-tiny:amd64", "essential-tool:amd64"} &&
      IsManual(map[], name)
  {
  }

  /** With no extended-states file every installed package is listed. */
  lemma MissingEstatesScenario(r: seq<string>)
    requires StrictlyAscending(r)
    requires forall name :: name in r <==>
      name in InstalledOf(StatusBasic) && IsManual(AutoMapOf(Unopenable.stanzas), name)
    ensures r == ["essential-tool:amd64", "libc6:amd64", "python3-requests:all", "vim-tiny:amd64"]
  {
    BasicInstalledSet();
    FullExpectedSorted();
    FullExpectedMembers();
    ClassificationDeterministic(InstalledOf(StatusBasic), AutoMapOf(Unopenable.stanzas), r,
      ["essential-tool:amd64", "libc6:amd64", "python3-requests:all", "vim-tiny:amd64"]);
  }

  /** Two defective stanzas before a good one: only the good one counts. */
  lemma TwoSkippedThenInstalled(noPackage: Stanza, noStatus: Stanza, name: string, status: string)
    requires PackageField !in noPackage && StatusField !in noStatus
    requires IsInstalledStatus(status)
    ensures InstalledOf([noPackage, noStatus, WithStatus(name, status)]) == {name}
  {
    var good := WithStatus(name, status);
    SkippedStatusStanza([], noPackage, [noStatus, good]);
    SkippedStatusStanza([], noStatus, [good]);
    InstalledStep([], name, status);
    assert [] + [noPackage] + [noStatus, good] == [noPackage, noStatus, good];
    assert [] + [noStatus] + [good] == [noStatus, good];
    assert [] + [good] == [good];
  }

  lemma MalformedInstalledSet()
    ensures InstalledOf(StatusMalformed) == {"good-package:all"}
  {
    InstalledStatusesAccepted();
    TwoSkippedThenInstalled(StatusMalformed[0], StatusMalformed[1], "good-package:all", OkInstalled);
  }

  /** A stanza without `Package` and a non-integer flag before a valid one: only the valid one counts. */
  lemma TwoIgnoredThenMarked(noPackage: Stanza, bad: string, badFlag: string, good: string, flag: string, v: int)
    requires PackageField !in noPackage && ParseInteger(badFlag).None?
    requires ParseInteger(flag) == Some(v) && (v == 0 || v == 1)
    ensures AutoMapOf([noPackage, Marked(bad, badFlag), Marked(good, flag)]) == map[good := v]
  {
    var marked := Marked(good, flag);
    IgnoredAutoStanza([], noPackage, [Marked(bad, badFlag), marked]);
    IgnoredAutoStanza([], Marked(bad, badFlag), [marked]);
    MarkStep([], good, flag, v);
    assert [] + [noPackage] + [Marked(bad, badFlag), marked] == [noPackage, Marked(bad, badFlag), marked];
    assert [] + [Marked(bad, badFlag)] + [marked] == [Marked(bad, badFlag), marked];
    assert [] + [marked] == [marked];
  }

  lemma MalformedAutoMap()
    ensures AutoMapOf(EstatesMalformed) == map["good-auto:amd64" := 1]
  {
    AcceptedSpellings();
    TwoIgnoredThenMarked(EstatesMalformed[0], "bad-value:all", "maybe", "good-auto:amd64", "1", 1);
  }

  lemma MalformedExpectedMembers()
    ensures forall name :: name in ["good-package:all"] <==>
      name in {"good-package:all"} && IsManual(map["good-auto:amd64" := 1], name)
  {
  }

  /** Malformed stanzas are skipped and the good ones still count. */
  lemma MalformedScenario(r: seq<string>)
    requires StrictlyAscending(r)
    requires forall name :: name in r <==>
      name in InstalledOf(StatusMalformed) && IsManual(AutoMapOf(EstatesMalformed), name)
    ensures r == ["good-package:all"]
  {
    MalformedInstalledSet();
    MalformedAutoMap();
    MalformedExpectedMembers();
    ClassificationDeterministic(InstalledOf(StatusMalformed), AutoMapOf(EstatesMalformed), r, ["good-package:all"]);
  }

  lemma AllAutoInstalledSet()
    ensures InstalledOf(StatusAllAuto) == {"core-lib:amd64", "another-lib:all", "helper-util:amd64"}
  {
    InstalledStatusesAccepted();
    ThreeInstalled("core-lib:amd64", "another-lib:all", "helper-util:amd64", OkInstalled);
  }

  lemma ThreeMarks(a: string, b: string, c: string, flag: string, v: int)
    requires ParseInteger(flag) == Some(v) && (v == 0 || v == 1)
    ensures AutoMapOf([Marked(a, flag), Marked(b, flag), Marked(c, flag)]) == map[a := v, b := v, c := v]
  {
    TwoMarks(a, flag, v, b, flag, v);
    MarkStep([Marked(a, flag), Marked(b, flag)], c, flag, v);
    assert [Marked(a, flag), Marked(b, flag)] + [Marked(c, flag)]
      == [Marked(a, flag), Marked(b, flag), Marked(c, flag)];
  }

  lemma AllAutoMap()
    ensures AutoMapOf(EstatesAllAuto) == map["core-lib:amd64" := 1, "another-lib:all" := 1, "helper-util:amd64" := 1]
  {
    AcceptedSpellings();
    ThreeMarks("core-lib:amd64", "another-lib:all", "helper-util:amd64", "1", 1);
  }

  /** When every installed package is marked automatic the list is empty. */
  lemma AllAutoScenario(r: seq<string>)
    requires StrictlyAscending(r)
    requires forall name :: name in r <==>
      name in InstalledOf(StatusAllAuto) && IsManual(AutoMapOf(EstatesAllAuto), name)
    ensures r == []
  {
    AllAutoInstalledSet();
    AllAutoMap();
    ClassificationDeterministic(InstalledOf(StatusAllAuto), AutoMapOf(EstatesAllAuto), r, []);
  }

  /** Two stanzas whose statuses are not installed ones add nothing. */
  lemma TwoRejected(a: string, sa: string, b: string, sb: string)
    requires !IsInstalledStatus(sa) && !IsInstalledStatus(sb)
    ensures InstalledOf([WithStatus(a, sa), WithStatus(b, sb)]) == {}
  {
    var first := WithStatus(a, sa);
    assert WithStatus(a, sa)[StatusField] == sa && WithStatus(b, sb)[StatusField] == sb;
    assert InstalledEntry(first) == None && InstalledEntry(WithStatus(b, sb)) == None;
    assert [first, WithStatus(b, sb)][..1] == [first];
    assert [first][..0] == [];
    assert InstalledOf([first]) == InstalledOf([]) + {};
  }

  lemma NoneInstalledSet()
    ensures InstalledOf(StatusNoneInstalled) == {}
  {
    ConfigFilesRejected();
    NotInstalledRejected();
    TwoRejected("old-tool:amd64", "deinstall ok config-files", "never-used:all", "install ok not-installed");
  }

  /** With no package installed the list is empty, whatever the extended states say. */
  lemma NoneInstalledScenario(estates: seq<Stanza>, r: seq<string>)
    requires StrictlyAscending(r)
    requires forall name :: name in r <==>
      name in InstalledOf(StatusNoneInstalled) && IsManual(AutoMapOf(estates), name)
    ensures r == []
  {
    NoneInstalledSet();
    ClassificationDeterministic(InstalledOf(StatusNoneInstalled), AutoMapOf(estates), r, []);
  }
}
