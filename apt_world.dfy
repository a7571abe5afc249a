/**
 apt-world's classification pipeline: which currently installed packages
 were installed by the user rather than pulled in as dependencies.

 A package is manually installed when the dpkg status database says it is
 installed and the apt extended_states database does not mark it
 `Auto-Installed: 1`; an explicit `Auto-Installed: 0` and no marking at
 all both count as manual.
 */
module AptWorld {
  import opened Stanzas
  import opened Integers
  import opened StringOrder

  /** What a reader hands back: its value, or the status `sys.exit` ends the process with. */
  datatype Outcome<T> = Done(value: T) | Exit(code: int)

  const PackageField := "Package"
  const StatusField := "Status"
  const AutoInstalledField := "Auto-Installed"

  /** The substring whose presence in `Status` means "installed". */
  const InstalledMarker := " installed"

  /** Exit status after a fatal error reading the status database. */
  const FatalExit := 1

  // ---------------------------------------------------------------------
  // Status filter: the installed set
  // ---------------------------------------------------------------------

  predicate IsInstalledStatus(status: string)
  {
    Contains(status, InstalledMarker)
  }

  /** The name a status stanza adds to the installed set, if any. */
  function InstalledEntry(st: Stanza): Option<string>
  {
    if PackageField !in st then None
    else if StatusField !in st then None
    else if IsInstalledStatus(st[StatusField]) then Some(st[PackageField])
    else None
  }

  /** The installed set once the scan has gone through `stanzas`. */
  function InstalledOf(stanzas: seq<Stanza>): set<string>
  {
    if stanzas == [] then {}
    else
      var entry := InstalledEntry(stanzas[|stanzas| - 1]);
      InstalledOf(stanzas[..|stanzas| - 1]) + (if entry.Some? then {entry.value} else {})
  }

  /** A name is installed exactly when some stanza with both fields reports it installed. */
  lemma {:induction false} InstalledOfMembers(stanzas: seq<Stanza>, name: string)
    ensures name in InstalledOf(stanzas) <==>
      exists i :: 0 <= i < |stanzas| && InstalledEntry(stanzas[i]) == Some(name)
  {
    if stanzas != [] {
      var init := stanzas[..|stanzas| - 1];
      InstalledOfMembers(init, name);
      if name in InstalledOf(init) {
        var i :| 0 <= i < |init| && InstalledEntry(init[i]) == Some(name);
        assert stanzas[i] == init[i];
      }
      if exists i :: 0 <= i < |stanzas| && InstalledEntry(stanzas[i]) == Some(name) {
        var i :| 0 <= i < |stanzas| && InstalledEntry(stanzas[i]) == Some(name);
        if i < |init| {
          assert init[i] == stanzas[i];
        }
      }
    }
  }

  /** The scan is compositional: the stanzas of two halves of a file contribute independently. */
  lemma {:induction false} InstalledOfConcat(a: seq<Stanza>, b: seq<Stanza>)
    ensures InstalledOf(a + b) == InstalledOf(a) + InstalledOf(b)
    decreases |b|
  {
    if b == [] {
      assert a + b == a;
    } else {
      var init := b[..|b| - 1];
      InstalledOfConcat(a, init);
      assert (a + b)[..|a + b| - 1] == a + init;
      assert (a + b)[|a + b| - 1] == b[|b| - 1];
    }
  }

  /** A stanza lacking `Package` or `Status` is skipped and the stanzas after it still count. */
  lemma SkippedStatusStanza(before: seq<Stanza>, st: Stanza, after: seq<Stanza>)
    requires PackageField !in st || StatusField !in st
    ensures InstalledOf(before + [st] + after) == InstalledOf(before + after)
  {
    InstalledOfConcat(before + [st], after);
    InstalledOfConcat(before, [st]);
    InstalledOfConcat(before, after);
    assert [st][..0] == [];
  }

  /** A stanza with both fields adds its name exactly when `Status` holds " installed". */
  lemma CompleteStatusStanza(before: seq<Stanza>, st: Stanza)
    requires PackageField in st && StatusField in st
    ensures st[PackageField] in InstalledOf(before + [st]) <==>
      st[PackageField] in InstalledOf(before) || IsInstalledStatus(st[StatusField])
    ensures InstalledOf(before) <= InstalledOf(before + [st])
  {
  }

  /** Any status ending in " installed" is accepted. */
  lemma MarkerAtEnd(prefix: string)
    ensures IsInstalledStatus(prefix + InstalledMarker)
  {
    var text := prefix + InstalledMarker;
    assert text[|prefix|..|prefix| + |InstalledMarker|] == InstalledMarker;
    ContainsAt(text, InstalledMarker, |prefix|);
  }

  /** Status values of installed packages are accepted, whatever the wanted state. */
  lemma InstalledStatusesAccepted()
    ensures IsInstalledStatus("install ok installed")
    ensures IsInstalledStatus("hold ok installed")
    ensures IsInstalledStatus("deinstall ok installed")
  {
    MarkerAtEnd("install ok");
    assert "install ok" + InstalledMarker == "install ok installed";
    MarkerAtEnd("hold ok");
    assert "hold ok" + InstalledMarker == "hold ok installed";
    MarkerAtEnd("deinstall ok");
    assert "deinstall ok" + InstalledMarker == "deinstall ok installed";
  }

  /** A removed package whose configuration files remain is not installed. */
  lemma ConfigFilesRejected()
    ensures !IsInstalledStatus("deinstall ok config-files")
  {
    NoPairNoContains("deinstall ok config-files", InstalledMarker);
  }

  /** "not-installed" ends in "installed" but has no space before it. */
  lemma NotInstalledRejected()
    ensures !IsInstalledStatus("install ok not-installed")
  {
    NoPairNoContains("install ok not-installed", InstalledMarker);
  }

  lemma HalfInstalledRejected()
    ensures !IsInstalledStatus("install reinstreq half-installed")
  {
    NoPairNoContains("install reinstreq half-installed", InstalledMarker);
  }

  /** The marker needs the space before it: a bare "installed" is not accepted. */
  lemma BareInstalledRejected()
    ensures !IsInstalledStatus("installed")
  {
  }

  /**
   get_installed_packages: scans the status stanzas, skipping those without
   `Package` or `Status`; a read failure at any point is fatal.
   */
  method GetInstalledPackages(source: Source) returns (r: Outcome<set<string>>)
    ensures source.Broken? ==> r == Exit(FatalExit)
    ensures source.Complete? ==> r == Done(InstalledOf(source.stanzas))
  {
    var installed: set<string> := {};
    var stanzas := source.stanzas;
    for i := 0 to |stanzas|
      invariant installed == InstalledOf(stanzas[..i])
    {
      var pkg := stanzas[i];
      assert stanzas[..i + 1][..i] == stanzas[..i];
      if PackageField !in pkg {
        continue;
      }
      var name := pkg[PackageField];
      if StatusField !in pkg {
        continue;
      }
      var status := pkg[StatusField];
      if Contains(status, InstalledMarker) {
        installed := installed + {name};
      }
    }
    if source.Broken? {
      return Exit(FatalExit);
    }
    assert stanzas[..|stanzas|] == stanzas;
    return Done(installed);
  }

  // ---------------------------------------------------------------------
  // Extended states: the auto-installed map
  // ---------------------------------------------------------------------

  /** The outcomes of reading `Auto-Installed`, one per branch of the reader. */
  datatype AutoField = Absent | Flag(value: int) | OutOfRange(value: int) | NotInteger

  function ReadAutoField(st: Stanza): (f: AutoField)
    ensures f.Flag? ==> f.value == 0 || f.value == 1
    ensures f.OutOfRange? ==> f.value != 0 && f.value != 1
    ensures f.Absent? <==> AutoInstalledField !in st
    ensures f.NotInteger? <==> AutoInstalledField in st && ParseInteger(st[AutoInstalledField]).None?
    ensures f.Flag? || f.OutOfRange? ==>
      AutoInstalledField in st && ParseInteger(st[AutoInstalledField]) == Some(f.value)
  {
    if AutoInstalledField !in st then Absent
    else match ParseInteger(st[AutoInstalledField])
      case None => NotInteger
      case Some(v) => if v == 0 || v == 1 then Flag(v) else OutOfRange(v)
  }

  /** The stanza records `value` for `name` in the map. */
  ghost predicate Marks(st: Stanza, name: string)
  {
    PackageField in st && st[PackageField] == name && ReadAutoField(st).Flag?
  }

  /** One step of the extended-states scan. */
  function Record(m: map<string, int>, st: Stanza): map<string, int>
  {
    if PackageField !in st then m
    else match ReadAutoField(st)
      case Flag(v) => m[st[PackageField] := v]
      case _ => m
  }

  /** The auto-installed map once the scan has gone through `stanzas`. */
  function AutoMapOf(stanzas: seq<Stanza>): map<string, int>
  {
    if stanzas == [] then map[]
    else Record(AutoMapOf(stanzas[..|stanzas| - 1]), stanzas[|stanzas| - 1])
  }

  /** Every stored value is 0 or 1. */
  lemma {:induction false} AutoMapValues(stanzas: seq<Stanza>)
    ensures forall name :: name in AutoMapOf(stanzas) ==> AutoMapOf(stanzas)[name] == 0 || AutoMapOf(stanzas)[name] == 1
  {
    if stanzas != [] {
      AutoMapValues(stanzas[..|stanzas| - 1]);
    }
  }

  /** A name has an entry exactly when some stanza names it with a valid flag. */
  lemma {:induction false} AutoMapKeys(stanzas: seq<Stanza>, name: string)
    ensures name in AutoMapOf(stanzas) <==> exists i :: 0 <= i < |stanzas| && Marks(stanzas[i], name)
  {
    if stanzas != [] {
      var init := stanzas[..|stanzas| - 1];
      AutoMapKeys(init, name);
      if name in AutoMapOf(init) {
        var i :| 0 <= i < |init| && Marks(init[i], name);
        assert stanzas[i] == init[i];
      }
      if exists i :: 0 <= i < |stanzas| && Marks(stanzas[i], name) {
        var i :| 0 <= i < |stanzas| && Marks(stanzas[i], name);
        if i < |init| {
          assert init[i] == stanzas[i];
        }
      }
    }
  }

  /** When a name is marked several times, the last valid marking is the one kept. */
  lemma {:induction false} LastMarkWins(stanzas: seq<Stanza>, i: int, name: string)
    requires 0 <= i < |stanzas| && Marks(stanzas[i], name)
    requires forall j :: i < j < |stanzas| ==> !Marks(stanzas[j], name)
    ensures name in AutoMapOf(stanzas)
    ensures AutoMapOf(stanzas)[name] == ReadAutoField(stanzas[i]).value
  {
    var init := stanzas[..|stanzas| - 1];
    if i < |stanzas| - 1 {
      forall j | i < j < |init|
        ensures !Marks(init[j], name)
      {
        assert init[j] == stanzas[j];
      }
      assert init[i] == stanzas[i];
      LastMarkWins(init, i, name);
    }
  }

  /** The map is compositional: entries from the second half override those from the first. */
  lemma {:induction false} AutoMapConcat(a: seq<Stanza>, b: seq<Stanza>)
    ensures AutoMapOf(a + b) == AutoMapOf(a) + AutoMapOf(b)
    decreases |b|
  {
    if b == [] {
      assert a + b == a;
    } else {
      var init := b[..|b| - 1];
      var st := b[|b| - 1];
      AutoMapConcat(a, init);
      assert (a + b)[..|a + b| - 1] == a + init;
      assert (a + b)[|a + b| - 1] == st;
      if PackageField in st && ReadAutoField(st).Flag? {
        var left, right := AutoMapOf(a), AutoMapOf(init);
        assert (left + right)[st[PackageField] := ReadAutoField(st).value]
          == left + right[st[PackageField] := ReadAutoField(st).value];
      }
    }
  }

  /**
   A stanza without `Package`, or whose `Auto-Installed` is absent, not an
   integer or outside {0, 1}, leaves the map as if it were not there.
   */
  lemma IgnoredAutoStanza(before: seq<Stanza>, st: Stanza, after: seq<Stanza>)
    requires PackageField !in st || !ReadAutoField(st).Flag?
    ensures AutoMapOf(before + [st] + after) == AutoMapOf(before + after)
  {
    AutoMapConcat(before + [st], after);
    AutoMapConcat(before, [st]);
    AutoMapConcat(before, after);
    assert [st][..0] == [];
  }

  /**
   get_auto_installed_map: scans the extended-states stanzas; entries stored
   before a read failure stay, so a file that cannot be opened gives the
   empty map.
   */
  method GetAutoInstalledMap(source: Source) returns (m: map<string, int>)
    ensures m == AutoMapOf(source.stanzas)
    ensures forall name :: name in m ==> m[name] == 0 || m[name] == 1
    ensures source == Unopenable ==> m == map[]
  {
    m := map[];
    var stanzas := source.stanzas;
    for i := 0 to |stanzas|
      invariant m == AutoMapOf(stanzas[..i])
    {
      var pkg := stanzas[i];
      assert stanzas[..i + 1][..i] == stanzas[..i];
      if PackageField !in pkg {
        continue;
      }
      var name := pkg[PackageField];
      if AutoInstalledField in pkg {
        var parsed := ParseInteger(pkg[AutoInstalledField]);
        if parsed.Some? {
          var value := parsed.value;
          if value == 0 || value == 1 {
            m := m[name := value];
          }
        }
      }
    }
    assert stanzas[..|stanzas|] == stanzas;
    AutoMapValues(stanzas);
  }

  /**
   A read that fails after delivering stanzas keeps what they stored: the map
   is not emptied by the exception handler, only an unopenable file gives `map[]`.
   */
  lemma PartialMapKept(name: string)
    ensures AutoMapOf(Broken([map[PackageField := name, AutoInstalledField := "1"]]).stanzas) == map[name := 1]
  {
    var st := map[PackageField := name, AutoInstalledField := "1"];
    assert "1"[..0] == "";
    assert ParseInteger("1") == Some(1);
    assert [st][..0] == [];
  }

  // ---------------------------------------------------------------------
  // Classifier: installed and not marked automatic
  // ---------------------------------------------------------------------

  /** `auto_install_map.get(name)`. */
  function Lookup(auto: map<string, int>, name: string): Option<int>
  {
    if name in auto then Some(auto[name]) else None
  }

  /** The module's definition of manual: not marked `Auto-Installed: 1`. */
  predicate IsManual(auto: map<string, int>, name: string)
  {
    Lookup(auto, name) != Some(1)
  }

  ghost function ManualSet(installed: set<string>, auto: map<string, int>): set<string>
  {
    set name | name in installed && IsManual(auto, name)
  }

  /**
   The loop and sort of get_manually_installed_packages: the installed set
   is walked in whatever order the set yields, names not marked automatic
   are collected and the list is sorted.
   */
  method ManuallyInstalled(installed: set<string>, auto: map<string, int>) returns (r: seq<string>)
    ensures StrictlyAscending(r)
    ensures forall name :: name in r <==> name in installed && IsManual(auto, name)
    ensures forall name :: name in installed && name !in auto ==> name in r
    ensures forall name :: name in installed && name in auto && auto[name] == 0 ==> name in r
    ensures forall name :: name in auto && auto[name] == 1 ==> name !in r
    ensures |r| <= |installed|
  {
    var manual: seq<string> := [];
    var remaining := installed;
    while remaining != {}
      invariant remaining <= installed
      invariant multiset(manual) == multiset(ManualSet(installed - remaining, auto))
      decreases remaining
    {
      var name :| name in remaining;
      var autoStatus := Lookup(auto, name);
      ghost var seen := installed - remaining;
      if autoStatus != Some(1) {
        manual := manual + [name];
        assert ManualSet(seen + {name}, auto) == ManualSet(seen, auto) + {name};
      } else {
        assert ManualSet(seen + {name}, auto) == ManualSet(seen, auto);
      }
      remaining := remaining - {name};
      assert installed - remaining == seen + {name};
    }
    assert installed - remaining == installed;
    r := Sorted(manual);
    AscendingDistinct(r, ManualSet(installed, auto));
    forall name
      ensures name in r <==> name in ManualSet(installed, auto)
    {
      assert name in r <==> name in multiset(r);
      assert name in ManualSet(installed, auto) <==> name in multiset(ManualSet(installed, auto));
    }
    assert ManualSet(installed, auto) <= installed;
    assert |r| == |ManualSet(installed, auto)| by {
      assert |multiset(r)| == |r|;
    }
    SubsetSize(ManualSet(installed, auto), installed);
  }

  lemma {:induction false} SubsetSize(small: set<string>, big: set<string>)
    requires small <= big
    ensures |small| <= |big|
    decreases big
  {
    if small != {} {
      var x :| x in small;
      SubsetSize(small - {x}, big - {x});
    }
  }

  /** The sorted list of manual packages does not depend on the order the set is walked in. */
  lemma ClassificationDeterministic(installed: set<string>, auto: map<string, int>, r1: seq<string>, r2: seq<string>)
    requires StrictlyAscending(r1) && forall name :: name in r1 <==> name in installed && IsManual(auto, name)
    requires StrictlyAscending(r2) && forall name :: name in r2 <==> name in installed && IsManual(auto, name)
    ensures r1 == r2
  {
    StrictlyAscendingUnique(r1, r2);
  }

  /**
   On the map the extended-states scan builds, the code's test "not marked 1"
   is the module's definition: marked 0, or not listed at all.
   */
  lemma ManualIffUnmarkedOrZero(estates: seq<Stanza>, name: string)
    ensures IsManual(AutoMapOf(estates), name) <==>
      name !in AutoMapOf(estates) || AutoMapOf(estates)[name] == 0
  {
    AutoMapValues(estates);
  }

  /** A name the extended states mark last with 0 is manual, one marked last with 1 is not. */
  lemma ManualByLastMark(estates: seq<Stanza>, i: int, name: string)
    requires 0 <= i < |estates| && Marks(estates[i], name)
    requires forall j :: i < j < |estates| ==> !Marks(estates[j], name)
    ensures IsManual(AutoMapOf(estates), name) <==> ReadAutoField(estates[i]).value == 0
  {
    LastMarkWins(estates, i, name);
  }

  /** A name the extended states never mark validly is manual. */
  lemma ManualWhenUnmarked(estates: seq<Stanza>, name: string)
    requires forall i :: 0 <= i < |estates| ==> !Marks(estates[i], name)
    ensures IsManual(AutoMapOf(estates), name)
  {
    AutoMapKeys(estates, name);
  }

  /**
   get_manually_installed_packages: read the status database (fatal on
   failure), read the extended states (never fatal), keep the installed
   names not marked automatic, sorted.
   */
  method GetManuallyInstalledPackages(status: Source, estates: Source) returns (r: Outcome<seq<string>>)
    ensures status.Broken? ==> r == Exit(FatalExit)
    ensures status.Complete? ==> r.Done? && StrictlyAscending(r.value)
    ensures status.Complete? ==> forall name :: name in r.value <==>
      name in InstalledOf(status.stanzas) && IsManual(AutoMapOf(estates.stanzas), name)
    ensures status.Complete? && estates == Unopenable ==> forall name :: name in r.value <==>
      name in InstalledOf(status.stanzas)
  {
    var installed := GetInstalledPackages(status);
    if installed.Exit? {
      return Exit(installed.code);
    }
    var auto := GetAutoInstalledMap(estates);
    var manual := ManuallyInstalled(installed.value, auto);
    return Done(manual);
  }
}
