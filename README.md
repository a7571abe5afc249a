# apt-world classification pipeline in Dafny

apt-world lists the Debian packages a user installed on purpose, as opposed
to those apt pulled in as dependencies. It reads two stanza files: the dpkg
status database and apt's extended_states database. A package is *manually
installed* when the status database reports it installed and the extended
states do not mark it `Auto-Installed: 1`. An explicit `Auto-Installed: 0`
and no marking at all both count as manual.

This project models the three core functions of `apt_world.py` and proves
what they promise:

- `stanza.dfy` (module `Stanzas`): a stanza is a `map<string, string>`. A
  file read is a `Source`: `Complete(stanzas)` is a read that reached the
  end, and `Broken(stanzas)` is a read that raised after delivering
  `stanzas`. A file that cannot be opened is `Unopenable == Broken([])`.
  The module also models Python's substring test `pattern in text`, which the
  status filter uses, and proves it equal to a reference definition.
- `integer.dfy` (module `Integers`): the part of Python's `int()` that an
  `Auto-Installed` value goes through. That is an optional sign followed by
  ASCII digits, proved to round-trip with decimal rendering.
- `order.dfy` (module `StringOrder`): Python's ordering of strings and
  `sorted()`, written as an insertion sort over a new list. It is proved to
  return an ascending permutation of its input. A strictly ascending list is
  also proved to be fixed by its set of elements.
- `apt_world.dfy` (module `AptWorld`):
  - `GetInstalledPackages` (status filter): a loop that grows a set and
    skips, with `continue`, stanzas without `Package` or `Status`. Any read
    failure ends in exit status 1.
  - `GetAutoInstalledMap` (extended states): a loop that fills a map with
    `Auto-Installed` values that parse to 0 or 1.
  - `ManuallyInstalled` and `GetManuallyInstalledPackages` (classifier): walk
    the installed set in arbitrary order, collect the names not marked 1, and
    sort them.

  Each loop is proved against a specification function (`InstalledOf`,
  `AutoMapOf`, `ManualSet`). The lemmas beside them characterise those
  functions.
- `scenarios.dfy` (module `Scenarios`): the fixture scenarios of
  `tests/test_apt_world.py`, with the results the model gives for them. The
  mock data files are not part of this model. Their stanzas are written out
  here so that each one gives what its test expects.

The model follows what the code does:

- A package is identified by its raw `Package` value. The code never builds
  `name:architecture` keys.
- The code has one policy, the default one. It has no explicit-only or
  filter-base modes and no priority/essential details.
- The installed test is the code's loose check: `Status` contains
  `" installed"`. It is not the strict three-word `install ok installed`.
  This check accepts `hold ok installed` and `deinstall ok installed`. It
  rejects `deinstall ok config-files`, `install ok not-installed`,
  `install reinstreq half-installed`, and also a bare `installed`.
- The extended-states map is filled in place and the exception handler only
  logs. So a read that fails after some stanzas keeps the entries stored
  before the failure, although the docstring (apt_world.py:111-113) speaks of
  an empty map for an unreadable file. Only a file that cannot be opened
  gives the empty map.

## Model

| member | source | states |
|---|---|---|
| `Stanzas.ContainsIffOccurs` | apt_world.py:88 | the substring test holds exactly when some window of the text equals the pattern (both directions) |
| `Stanzas.ContainsAt` | apt_world.py:88 | an occurrence at any position makes the substring test true |
| `Integers.ParseInteger` | apt_world.py:140-149 | `int()` succeeds exactly on an optional `+`/`-` followed by one or more digits; a `-` gives a value <= 0, otherwise >= 0 |
| `Integers.Decimal` | apt_world.py:142 | partner of the parser: the canonical rendering of a natural number is a non-empty digit string with no leading zero |
| `Integers.DigitsOfDecimal` | apt_world.py:142 | partner of the parser: the digit value of a number's canonical rendering is that number |
| `Integers.ParseDecimal` | apt_world.py:142 | parsing the rendering of any integer, with `-` for negatives, gives it back |
| `Integers.DecimalOfDigits` | apt_world.py:142 | the other half of the round trip: every digit string without a leading zero is the canonical rendering of its value |
| `Integers.LeadingZero` | apt_world.py:142 | a leading `0` in front of digits leaves the parsed value unchanged |
| `Integers.Signs` | apt_world.py:142 | a `+` in front of digits leaves the parsed value unchanged, a `-` negates it |
| `Integers.AcceptedSpellings` | apt_world.py:142-149 | `"0"`, `"1"`, `"01"`, `"+1"`, `"-0"` parse to values the map keeps; `"maybe"`, `""`, `"+"`, `"1a"` are rejected |
| `StringOrder.LessIrreflexive` | apt_world.py:195 | no string sorts before itself |
| `StringOrder.LessTransitive` | apt_world.py:195 | string ordering is transitive |
| `StringOrder.LessTotal` | apt_world.py:195 | of two different strings one sorts before the other |
| `StringOrder.LessAsymmetric` | apt_world.py:195 | two strings never sort before each other |
| `StringOrder.Insert` | apt_world.py:195 | inserting into an ascending list keeps it ascending and adds exactly the one element |
| `StringOrder.Sorted` | apt_world.py:195 | `sorted()` returns an ascending permutation of its input |
| `StringOrder.AscendingDistinct` | apt_world.py:181-195 | sorting names collected from a set gives a strictly ascending list (no duplicates) |
| `StringOrder.StrictlyAscendingUnique` | apt_world.py:194-195 | two strictly ascending lists with the same elements are equal |
| `AptWorld.InstalledOfMembers` | apt_world.py:73-89 | a name is in the installed set exactly when some stanza has `Package` equal to it and a `Status` containing `" installed"` |
| `AptWorld.InstalledOfConcat` | apt_world.py:73-89 | the installed set of two consecutive runs of stanzas is the union of their installed sets |
| `AptWorld.SkippedStatusStanza` | apt_world.py:75-84 | a stanza lacking `Package` or `Status` changes nothing, and the stanzas after it are still scanned |
| `AptWorld.CompleteStatusStanza` | apt_world.py:86-89 | a stanza with both fields adds its name exactly when its status is an installed one, and never removes a name |
| `AptWorld.MarkerAtEnd` | apt_world.py:88 | every status ending in `" installed"` counts as installed |
| `AptWorld.InstalledStatusesAccepted` | apt_world.py:86-89 | `install ok installed`, `hold ok installed` and `deinstall ok installed` count as installed |
| `AptWorld.ConfigFilesRejected` | apt_world.py:86-89 | `deinstall ok config-files` does not count as installed |
| `AptWorld.NotInstalledRejected` | apt_world.py:86-89 | `install ok not-installed` does not count as installed |
| `AptWorld.HalfInstalledRejected` | apt_world.py:86-89 | `install reinstreq half-installed` does not count as installed |
| `AptWorld.BareInstalledRejected` | apt_world.py:88 | a bare `installed`, with no space before it, does not count as installed |
| `AptWorld.GetInstalledPackages` | apt_world.py:50-103 | a complete read gives exactly the installed set of its stanzas; a failed read, even after some stanzas, gives exit status 1 and no set |
| `AptWorld.ReadAutoField` | apt_world.py:139-150 | the field is absent, not an integer, an integer outside {0, 1}, or a flag 0 or 1; for the last two the carried value is exactly what `int()` gives for the field |
| `AptWorld.AutoMapValues` | apt_world.py:143-144 | every value in the map is 0 or 1 |
| `AptWorld.AutoMapKeys` | apt_world.py:132-144 | a name is in the map exactly when some stanza has it as `Package` and an `Auto-Installed` that parses to 0 or 1 |
| `AptWorld.LastMarkWins` | apt_world.py:144 | when a name is marked several times, the map holds the value of its last valid marking |
| `AptWorld.AutoMapConcat` | apt_world.py:130-150 | the map of two consecutive runs of stanzas is the first run's map overridden by the second's |
| `AptWorld.IgnoredAutoStanza` | apt_world.py:132-150 | a stanza without `Package`, or with an absent, non-integer or out-of-range `Auto-Installed`, leaves the map unchanged |
| `AptWorld.GetAutoInstalledMap` | apt_world.py:106-161 | the map is that of the stanzas delivered before any failure; its values are 0 or 1; an unopenable file gives the empty map |
| `AptWorld.PartialMapKept` | apt_world.py:122-161 | a read that fails after one valid marking still returns that marking, not an empty map |
| `AptWorld.ManuallyInstalled` | apt_world.py:181-195 | the result is strictly ascending and holds exactly the installed names whose entry is not 1: unmarked and 0-marked names are kept, 1-marked names dropped, and it is no longer than the installed set |
| `AptWorld.ManualIffUnmarkedOrZero` | apt_world.py:184-190 | on any map the extended-states scan builds, the code's test `get(name) != 1` holds exactly when the name is marked 0 or not listed, the module docstring's definition of manual |
| `AptWorld.ClassificationDeterministic` | apt_world.py:181-195 | any two results for the same installed set and map are equal, whatever order the set is walked in |
| `AptWorld.ManualByLastMark` | apt_world.py:10-16 | a name whose last valid marking is 0 is manual, and one whose last valid marking is 1 is not |
| `AptWorld.ManualWhenUnmarked` | apt_world.py:10-16 | a name that no extended-states stanza validly marks is manual |
| `AptWorld.GetManuallyInstalledPackages` | apt_world.py:164-195 | a failed status read gives exit status 1. Otherwise the result is strictly ascending and holds exactly the installed names not marked 1. With an unopenable extended-states file it holds every installed name |
| `Scenarios.InstalledStep` | apt_world.py:86-89 | a stanza whose status counts as installed adds its name to the installed set |
| `Scenarios.MarkStep` | apt_world.py:139-144 | a stanza whose flag parses to 0 or 1 stores that value for its name, overriding any earlier one |
| `Scenarios.ThreeInstalled` | apt_world.py:73-89 | three installed stanzas give the set of their three names |
| `Scenarios.FourInstalled` | apt_world.py:73-89 | four installed stanzas give the set of their four names |
| `Scenarios.TwoMarks` | apt_world.py:130-144 | two valid markings give a map holding both |
| `Scenarios.ThreeMarks` | apt_world.py:130-144 | three valid markings with the same flag give a map holding all three |
| `Scenarios.TwoSkippedThenInstalled` | apt_world.py:73-89 | after a stanza without `Package` and one without `Status`, an installed stanza still counts, and only it |
| `Scenarios.TwoIgnoredThenMarked` | apt_world.py:130-150 | after a stanza without `Package` and a non-integer flag, a valid marking still counts, and only it |
| `Scenarios.BasicInstalledSet` | tests/test_apt_world.py:50-54 | the basic status fixture gives the four installed names |
| `Scenarios.BasicAutoMap` | tests/test_apt_world.py:92-96 | the basic extended-states fixture gives libc6 -> 1 and python3-requests -> 0 |
| `Scenarios.BasicScenario` | tests/test_apt_world.py:130-137 | the basic scenario lists essential-tool, python3-requests and vim-tiny, in that order |
| `Scenarios.MissingEstatesScenario` | tests/test_apt_world.py:155-162 | with the extended-states file missing, all four installed packages are listed, sorted |
| `Scenarios.MalformedInstalledSet` | tests/test_apt_world.py:72-77 | the malformed status fixture gives only good-package |
| `Scenarios.MalformedAutoMap` | tests/test_apt_world.py:116-121 | the malformed extended-states fixture gives only good-auto -> 1 |
| `Scenarios.MalformedScenario` | tests/test_apt_world.py:178-185 | with malformed fixtures only good-package is listed |
| `Scenarios.AllAutoInstalledSet` | tests/test_apt_world.py:66-70 | the all-auto status fixture gives its three installed names |
| `Scenarios.AllAutoMap` | tests/test_apt_world.py:110-114 | the all-auto extended-states fixture marks all three names 1 |
| `Scenarios.AllAutoScenario` | tests/test_apt_world.py:171-176 | when every installed package is marked automatic the list is empty |
| `Scenarios.TwoRejected` | apt_world.py:86-89 | two stanzas whose statuses do not count as installed give the empty installed set |
| `Scenarios.NoneInstalledSet` | tests/test_apt_world.py:61-64 | a status fixture with a config-files and a not-installed package gives the empty set |
| `Scenarios.NoneInstalledScenario` | tests/test_apt_world.py:164-169 | with no package installed the list is empty, whatever the extended states hold |

## Left out

- Opening files, UTF-8 decoding and telling `FileNotFoundError`,
  `PermissionError` and other exceptions apart (apt_world.py:68-70, 94-103,
  125-127, 152-158). A read is given as a `Source` that either completes or
  fails after some stanzas.
- Stanza parsing by `Deb822.iter_paragraphs`. It is a foreign library:
  continuation lines, duplicate keys and its case-insensitive field names are
  not modelled. Stanzas are given as maps with the field names spelled as the
  code spells them.
- Logging: the warning, error and debug messages are not modelled, and
  neither is the logger setup (apt_world.py:37-45).
- `main()`: argument parsing, the verbose switch, writing the list to
  standard output and the catch-all exit (apt_world.py:198-266). The guard
  for a missing `python3-debian` import (apt_world.py:25-30) and the
  command-line tests are also left out.
- Python's set iteration order is unspecified. It is modelled as an
  arbitrary choice of the next element, which the sorted result is proved
  not to depend on.
- Integers.ParseInteger: does not accept the surrounding whitespace, digit
  separators (`1_0`) or non-ASCII digits that Python's `int()` also accepts.
  Such `Auto-Installed` values are treated as non-integers here. It also
  parses digit strings of any length, where CPython 3.11 and later raise
  `ValueError` for more than 4300 digits.
