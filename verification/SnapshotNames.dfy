// Snapshot names: `snapshot_<n>` as the DAG prints them, the pattern it reads them with,
// and its search for the latest number among whatever names a folder carries.

module SnapshotNames {
  import opened Decimal
  import opened Snapshots

  const SNAPSHOT_PREFIX := "snapshot_"

  /** The name the DAG gives to snapshot number n. */
  function Name(n: int): string {
    SNAPSHOT_PREFIX + PrintInt(n)
  }

  /** The pattern `^snapshot_(\d+)\Z`. */
  predicate Matches(name: string) {
    SNAPSHOT_PREFIX <= name && AllDigits(name[|SNAPSHOT_PREFIX|..])
  }

  /** The name is the prefix with these digits, at least one. */
  ghost predicate Spells(name: string, digits: string) {
    && name == "snapshot_" + digits && digits != ""
    && forall i | 0 <= i < |digits| :: '0' <= digits[i] <= '9'
  }

  /** The pattern accepts the prefix with one or more digits, and nothing else. */
  lemma MatchesIff(name: string)
    ensures Matches(name) <==> exists digits :: Spells(name, digits)
  {
    if Matches(name) {
      assert Spells(name, name[|SNAPSHOT_PREFIX|..]);
    }
    if digits :| Spells(name, digits) {
      assert name[|SNAPSHOT_PREFIX|..] == digits;
    }
  }

  /** The number the pattern reads from a name, -1 when the name does not match. */
  function NumberOf(name: string): int {
    if Matches(name) then Parse(name[|SNAPSHOT_PREFIX|..]) else -1
  }

  /** The snapshot a name stands for. */
  ghost function IdOf(name: string): Snapshot {
    if exists n: int :: name == Name(n) then
      var n: int :| name == Name(n);
      Numbered(n)
    else Foreign(name, NumberOf(name))
  }

  /** Printing then matching a name gives its number back, for every natural number;
      a negative number prints to a name the pattern refuses. */
  lemma NumberOfName(n: int)
    ensures NumberOf(Name(n)) == if n >= 0 then n else -1
    ensures Matches(Name(n)) <==> n >= 0
  {
    var digits := Name(n)[|SNAPSHOT_PREFIX|..];
    assert digits == PrintInt(n);
    if n >= 0 {
      ParsePrint(n);
    } else {
      assert digits[0] == '-';
    }
  }

  lemma PrintIntInjective(m: int, n: int)
    requires PrintInt(m) == PrintInt(n)
    ensures m == n
  {
    assert m >= 0 ==> IsDigit(PrintInt(m)[0]);
    assert n >= 0 ==> IsDigit(PrintInt(n)[0]);
    if m < 0 && n < 0 {
      assert PrintInt(m)[1..] == Print(-m) && PrintInt(n)[1..] == Print(-n);
      ParsePrint(-m);
      ParsePrint(-n);
    } else if m >= 0 && n >= 0 {
      ParsePrint(m);
      ParsePrint(n);
    }
  }

  lemma NameInjective(m: int, n: int)
    requires Name(m) == Name(n)
    ensures m == n
  {
    assert Name(m)[|SNAPSHOT_PREFIX|..] == PrintInt(m);
    assert Name(n)[|SNAPSHOT_PREFIX|..] == PrintInt(n);
    PrintIntInjective(m, n);
  }

  /** Printed names are exactly the numbered snapshots. */
  lemma IdOfName(n: int)
    ensures IdOf(Name(n)) == Numbered(n)
  {
    var m: int :| Name(n) == Name(m) && IdOf(Name(n)) == Numbered(m);
    NameInjective(m, n);
  }

  /** The name of a snapshot. */
  function TextOf(id: Snapshot): string {
    if id.Numbered? then Name(id.n) else id.name
  }

  /** A foreign snapshot is named by what it is; Numbered needs no condition. */
  ghost predicate WellNamed(id: Snapshot) {
    id.Foreign? ==> IdOf(id.name) == id
  }

  /** Names and snapshots correspond one to one. */
  lemma IdOfText(id: Snapshot, name: string)
    requires WellNamed(id)
    ensures IdOf(name) == id <==> TextOf(id) == name
    ensures WellNamed(IdOf(name))
  {
    if id.Numbered? { IdOfName(id.n); }
  }

  /** A snapshot has the number the pattern reads from its name. */
  lemma IdNumber(name: string)
    ensures IdOf(name).Number() == NumberOf(name)
  {
    if exists n: int :: name == Name(n) {
      var n: int :| name == Name(n) && IdOf(name) == Numbered(n);
      NumberOfName(n);
    }
  }

  ghost function Ids(names: set<string>): set<Snapshot> {
    set name | name in names :: IdOf(name)
  }

  lemma IdsAdd(names: set<string>, name: string)
    ensures Ids(names + {name}) == Ids(names) + {IdOf(name)}
  {
    var l, r := Ids(names + {name}), Ids(names) + {IdOf(name)};
    assert name in names + {name};
    forall id ensures id in l <==> id in r {
      if id in Ids(names) {
        var other :| other in names && id == IdOf(other);
        assert other in names + {name};
      }
    }
  }

  /** The loop of `get_latest_snapshot_number`: collect the numbers of the matching names, then take their maximum. */
  method GetLatest(names: seq<string>) returns (latest: int)
    ensures latest == Latest(Ids(set name | name in names))
    ensures latest == -1 <==> forall name | name in names :: !Matches(name)
    ensures latest != -1 ==> exists name :: name in names && Matches(name) && Parse(name[|SNAPSHOT_PREFIX|..]) == latest
    ensures forall name | name in names && Matches(name) :: Parse(name[|SNAPSHOT_PREFIX|..]) <= latest
  {
    var numberList: seq<int> := [];
    for i := 0 to |names|
      invariant forall k | 0 <= k < |numberList| ::
        numberList[k] >= 0 && exists j :: 0 <= j < i && NumberOf(names[j]) == numberList[k]
      invariant forall j | 0 <= j < i && Matches(names[j]) :: NumberOf(names[j]) in numberList
    {
      if Matches(names[i]) {
        numberList := numberList + [Parse(names[i][|SNAPSHOT_PREFIX|..])];
      }
    }
    latest := Max(numberList);
    ghost var all := set name | name in names;
    assert IsLatest(Ids(all), latest) by {
      forall id | id in Ids(all) ensures id.Number() <= latest {
        var name :| name in all && id == IdOf(name);
        IdNumber(name);
      }
      if latest != -1 {
        var j :| 0 <= j < |names| && NumberOf(names[j]) == latest;
        IdNumber(names[j]);
        assert IdOf(names[j]) in Ids(all);
      }
    }
    LatestUnique(Ids(all), latest);
  }

  /** The maximum of a list of snapshot numbers, -1 when it is empty. */
  method Max(numbers: seq<int>) returns (max: int)
    requires forall k | 0 <= k < |numbers| :: numbers[k] >= 0
    ensures numbers == [] ==> max == -1
    ensures numbers != [] ==> max in numbers
    ensures forall k | 0 <= k < |numbers| :: numbers[k] <= max
  {
    if |numbers| == 0 {
      return -1;
    }
    max := numbers[0];
    for k := 1 to |numbers|
      invariant max in numbers
      invariant forall i | 0 <= i < k :: numbers[i] <= max
    {
      if numbers[k] > max {
        max := numbers[k];
      }
    }
  }
}
