/** Application configuration (config/ApplicationConfig.kt): the supported
    database kinds with their case-insensitive lookup by display name, the
    version-string check `^\d+\.\d+\.\d+$`, and the configuration defaults. */
module Config {
  import opened Wrappers
  import opened Strings

  datatype SupportedDatabase = MySql | PostgreSql | Oracle | H2 | SqLite
  {
    function DisplayName(): string {
      match this
      case MySql => "MySQL"
      case PostgreSql => "PostgreSQL"
      case Oracle => "Oracle"
      case H2 => "H2"
      case SqLite => "SQLite"
    }

    function DriverClass(): string {
      match this
      case MySql => "com.mysql.cj.jdbc.Driver"
      case PostgreSql => "org.postgresql.Driver"
      case Oracle => "oracle.jdbc.OracleDriver"
      case H2 => "org.h2.Driver"
      case SqLite => "org.sqlite.JDBC"
    }

    function UrlPattern(): string {
      match this
      case MySql => "jdbc:mysql://{host}:{port}/{database}"
      case PostgreSql => "jdbc:postgresql://{host}:{port}/{database}"
      case Oracle => "jdbc:oracle:thin:@{host}:{port}:{database}"
      case H2 => "jdbc:h2:{host}:{port}/{database}"
      case SqLite => "jdbc:sqlite:{database}"
    }
  }

  /** `values()`: the constants in declaration order. */
  const Values: seq<SupportedDatabase> := [MySql, PostgreSql, Oracle, H2, SqLite]

  lemma ValuesListsEachOnce(d: SupportedDatabase)
    ensures d in Values
    ensures forall i, j :: 0 <= i < j < |Values| ==> Values[i] != Values[j]
  {
  }

  /** `find`: the first entry of `dbs` whose display name equals `name` ignoring case. */
  function FindByName(dbs: seq<SupportedDatabase>, name: string): (r: Option<SupportedDatabase>)
    ensures r.None? <==> forall d :: d in dbs ==> !EqualsIgnoreCase(d.DisplayName(), name)
    ensures r.Some? ==> exists i :: (0 <= i < |dbs| && dbs[i] == r.value
      && EqualsIgnoreCase(r.value.DisplayName(), name)
      && forall k :: 0 <= k < i ==> !EqualsIgnoreCase(dbs[k].DisplayName(), name))
  {
    if dbs == [] then None
    else if EqualsIgnoreCase(dbs[0].DisplayName(), name) then
      Some(dbs[0])
    else
      var r := FindByName(dbs[1..], name);
      assert forall d :: d in dbs ==> d == dbs[0] || d in dbs[1..];
      if r.Some? then
        var i :| 0 <= i < |dbs[1..]| && dbs[1..][i] == r.value
          && EqualsIgnoreCase(r.value.DisplayName(), name)
          && forall k :: 0 <= k < i ==> !EqualsIgnoreCase(dbs[1..][k].DisplayName(), name);
        assert forall k :: 0 <= k < i + 1 ==> !EqualsIgnoreCase(dbs[k].DisplayName(), name) by {
          forall k | 0 <= k < i + 1
            ensures !EqualsIgnoreCase(dbs[k].DisplayName(), name)
          {
            if k > 0 {
              assert dbs[k] == dbs[1..][k - 1];
            }
          }
        }
        assert dbs[i + 1] == r.value;
        r
      else r
  }

  /** `SupportedDatabase.fromDisplayName`: an entry whose display name equals
      `name` ignoring case, when there is one. */
  function FromDisplayName(name: string): (r: Option<SupportedDatabase>)
    ensures r.None? <==> forall d: SupportedDatabase :: !EqualsIgnoreCase(d.DisplayName(), name)
    ensures r.Some? ==> EqualsIgnoreCase(r.value.DisplayName(), name)
  {
    var r := FindByName(Values, name);
    assert forall d: SupportedDatabase :: d in Values by {
      forall d: SupportedDatabase ensures d in Values {
        ValuesListsEachOnce(d);
      }
    }
    r
  }

  /** `SupportedDatabase.isSupported`: `name` is some display name, ignoring case. */
  predicate IsSupported(name: string)
    ensures IsSupported(name) <==> exists d: SupportedDatabase :: EqualsIgnoreCase(d.DisplayName(), name)
  {
    FromDisplayName(name).Some?
  }

  /** No string equals two display names ignoring case. The only names of the
      same length are "Oracle" and "SQLite", whose first letters no
      character matches both of. */
  lemma DisplayNamesAreApart(name: string, d: SupportedDatabase, e: SupportedDatabase)
    requires EqualsIgnoreCase(d.DisplayName(), name) && EqualsIgnoreCase(e.DisplayName(), name)
    ensures d == e
  {
    assert |d.DisplayName()| == |e.DisplayName()| == |name|;
    assert CharEqualsIgnoreCase(d.DisplayName()[0], name[0]) && CharEqualsIgnoreCase(e.DisplayName()[0], name[0]);
  }

  /** `fromDisplayName` finds an entry exactly when the name equals its display
      name ignoring case, and the names are far enough apart that the first
      match is the only one. */
  lemma FromDisplayNameSpec(name: string, d: SupportedDatabase)
    ensures FromDisplayName(name) == Some(d) <==> EqualsIgnoreCase(d.DisplayName(), name)
  {
    ValuesListsEachOnce(d);
    if FromDisplayName(name).Some? {
      var found := FromDisplayName(name).value;
      if EqualsIgnoreCase(d.DisplayName(), name) {
        DisplayNamesAreApart(name, d, found);
      }
    }
  }

  /** A display name is found back in any case: as declared, upper- or lower-cased. */
  lemma FromDisplayNameRoundTrip(d: SupportedDatabase)
    ensures FromDisplayName(d.DisplayName()) == Some(d)
    ensures FromDisplayName(Uppercase(d.DisplayName())) == Some(d)
    ensures FromDisplayName(Lowercase(d.DisplayName())) == Some(d)
  {
    var n := d.DisplayName();
    FromDisplayNameSpec(n, d);
    CaseChangesAreIgnored(n);
    EqualsIgnoreCaseSymmetric(Uppercase(n), n);
    EqualsIgnoreCaseSymmetric(Lowercase(n), n);
    FromDisplayNameSpec(Uppercase(n), d);
    FromDisplayNameSpec(Lowercase(n), d);
  }

  lemma ExampleUnsupported()
    ensures !IsSupported("InvalidDB") && !IsSupported("MongoDB") && !IsSupported("Redis") && !IsSupported("")
  {
  }

  lemma ExampleSupported()
    ensures FromDisplayName("mysql") == Some(MySql) && FromDisplayName("POSTGRESQL") == Some(PostgreSql)
  {
    assert EqualsIgnoreCase("MySQL", "mysql") by {
      forall i | 0 <= i < 5 ensures CharEqualsIgnoreCase("MySQL"[i], "mysql"[i]) {
      }
    }
    FromDisplayNameSpec("mysql", MySql);
    assert EqualsIgnoreCase("PostgreSQL", "POSTGRESQL") by {
      forall i | 0 <= i < 10 ensures CharEqualsIgnoreCase("PostgreSQL"[i], "POSTGRESQL"[i]) {
      }
    }
    FromDisplayNameSpec("POSTGRESQL", PostgreSql);
  }

  /** `getSupportedNames`: the display names as a set. */
  function SupportedNames(): (r: set<string>)
    ensures forall d: SupportedDatabase :: d.DisplayName() in r
    ensures forall n :: n in r ==> exists d: SupportedDatabase :: d.DisplayName() == n
  {
    set d | d in Values :: d.DisplayName()
  }

  lemma SupportedNamesAreTheFive()
    ensures SupportedNames() == {"MySQL", "PostgreSQL", "Oracle", "H2", "SQLite"}
    ensures |SupportedNames()| == 5
  {
    var names := {"MySQL", "PostgreSQL", "Oracle", "H2", "SQLite"};
    forall n | n in SupportedNames() ensures n in names {
      var d: SupportedDatabase :| d.DisplayName() == n;
    }
    assert MySql.DisplayName() in SupportedNames() && PostgreSql.DisplayName() in SupportedNames();
    assert Oracle.DisplayName() in SupportedNames() && H2.DisplayName() in SupportedNames();
    assert SqLite.DisplayName() in SupportedNames();
  }

  /** The display names in declaration order. */
  function DisplayNames(dbs: seq<SupportedDatabase>): (r: seq<string>)
    ensures |r| == |dbs| && forall i :: 0 <= i < |dbs| ==> r[i] == dbs[i].DisplayName()
  {
    if dbs == [] then [] else [dbs[0].DisplayName()] + DisplayNames(dbs[1..])
  }

  /** `getSupportedNamesAsString`: the display names in declaration order, joined by ", ". */
  function SupportedNamesAsString(): (r: string)
    ensures r == "MySQL, PostgreSQL, Oracle, H2, SQLite"
  {
    DisplayNamesInOrder();
    JoinFive("MySQL", "PostgreSQL", "Oracle", "H2", "SQLite", ", ");
    ListSpelledOut();
    Join(DisplayNames(Values), ", ")
  }

  lemma DisplayNamesInOrder()
    ensures DisplayNames(Values) == ["MySQL", "PostgreSQL", "Oracle", "H2", "SQLite"]
  {
    var names := DisplayNames(Values);
    assert |names| == 5 && names[0] == "MySQL" && names[1] == "PostgreSQL";
    assert names[2] == "Oracle" && names[3] == "H2" && names[4] == "SQLite";
  }

  lemma ListSpelledOut()
    ensures "MySQL" + ", " + "PostgreSQL" + ", " + "Oracle" + ", " + "H2" + ", " + "SQLite"
      == "MySQL, PostgreSQL, Oracle, H2, SQLite"
  {
  }

  lemma JoinFive(a: string, b: string, c: string, d: string, e: string, sep: string)
    ensures Join([a, b, c, d, e], sep) == a + sep + b + sep + c + sep + d + sep + e
  {
    var s := [a, b, c, d, e];
    assert s[1..] == [b, c, d, e] && s[1..][1..] == [c, d, e];
    assert s[1..][1..][1..] == [d, e] && s[1..][1..][1..][1..] == [e];
    assert Join([d, e], sep) == d + sep + e;
    assert Join([c, d, e], sep) == c + sep + (d + sep + e);
    assert Join([b, c, d, e], sep) == b + sep + (c + sep + (d + sep + e));
  }

  // ---------------------------------------------------------------------
  // Version strings
  // ---------------------------------------------------------------------

  predicate DigitRun(s: string) {
    |s| >= 1 && AllDigits(s)
  }

  /** `validateVersionFormat`: the whole string matches `^\d+\.\d+\.\d+$`
      (ASCII digits; the match must consume the whole input), decided by
      cutting at the dots. */
  predicate ValidateVersionFormat(version: string) {
    var parts := Split(version, '.');
    |parts| == 3 && DigitRun(parts[0]) && DigitRun(parts[1]) && DigitRun(parts[2])
  }

  /** The check accepts exactly three non-empty digit runs joined by single dots. */
  lemma ValidateVersionFormatSpec(version: string)
    ensures ValidateVersionFormat(version) <==>
      exists a, b, c :: DigitRun(a) && DigitRun(b) && DigitRun(c) && version == a + "." + b + "." + c
  {
    var parts := Split(version, '.');
    if ValidateVersionFormat(version) {
      SplitJoin(version, '.');
      assert parts[1..][1..] == [parts[2]];
      assert Join(parts[1..], ".") == parts[1] + "." + parts[2];
      assert version == parts[0] + "." + parts[1] + "." + parts[2];
    }
    if exists a, b, c :: DigitRun(a) && DigitRun(b) && DigitRun(c) && version == a + "." + b + "." + c {
      var a, b, c :| DigitRun(a) && DigitRun(b) && DigitRun(c) && version == a + "." + b + "." + c;
      VersionParts(a, b, c);
    }
  }

  /** Three digit runs joined by dots split back into those runs. */
  lemma VersionParts(a: string, b: string, c: string)
    requires AllDigits(a) && AllDigits(b) && AllDigits(c)
    ensures Split(a + "." + b + "." + c, '.') == [a, b, c]
  {
    DigitsHaveNo(a, '.');
    DigitsHaveNo(b, '.');
    DigitsHaveNo(c, '.');
    SplitThree(a, b, c, '.');
    assert a + ['.'] + b + ['.'] + c == a + "." + b + "." + c;
  }

  /** Three digit runs joined by dots pass the check. */
  lemma VersionAccepted(a: string, b: string, c: string)
    requires DigitRun(a) && DigitRun(b) && DigitRun(c)
    ensures ValidateVersionFormat(a + "." + b + "." + c)
  {
    VersionParts(a, b, c);
  }

  lemma ExampleVersionOneZeroZero()
    ensures ValidateVersionFormat("1.0.0")
  {
    assert "1" + "." + "0" + "." + "0" == "1.0.0";
    VersionAccepted("1", "0", "0");
  }

  lemma ExampleVersionTwoOneThree()
    ensures ValidateVersionFormat("2.1.3")
  {
    assert "2" + "." + "1" + "." + "3" == "2.1.3";
    VersionAccepted("2", "1", "3");
  }

  lemma ExampleVersionTenFiveTwo()
    ensures ValidateVersionFormat("10.5.2")
  {
    assert "10" + "." + "5" + "." + "2" == "10.5.2";
    VersionAccepted("10", "5", "2");
  }

  lemma ExampleTwoParts()
    ensures !ValidateVersionFormat("1.0")
  {
    SplitAppend("1", "0", '.');
    SplitNoSep("0", '.');
    assert "1" + ['.'] + "0" == "1.0";
  }

  lemma ExampleFourParts()
    ensures !ValidateVersionFormat("2.1.3.4")
  {
    SplitAppend("2", "1.3.4", '.');
    SplitAppend("1", "3.4", '.');
    SplitAppend("3", "4", '.');
    SplitNoSep("4", '.');
    assert "3" + ['.'] + "4" == "3.4";
    assert "1" + ['.'] + "3.4" == "1.3.4";
    assert "2" + ['.'] + "1.3.4" == "2.1.3.4";
  }

  lemma ExampleLeadingLetter()
    ensures !ValidateVersionFormat("v1.0.0")
  {
    SplitThree("v1", "0", "0", '.');
    assert "v1" + ['.'] + "0" + ['.'] + "0" == "v1.0.0";
  }

  lemma ExampleSuffix()
    ensures !ValidateVersionFormat("1.0.0-SNAPSHOT")
  {
    SplitThree("1", "0", "0-SNAPSHOT", '.');
    assert "1" + ['.'] + "0" + ['.'] + "0-SNAPSHOT" == "1.0.0-SNAPSHOT";
  }

  // ---------------------------------------------------------------------
  // The configuration record
  // ---------------------------------------------------------------------

  /** The `app.*` settings with their defaults. */
  datatype ApplicationConfig = ApplicationConfig(
    name: string := "Book Management System",
    version: string := "1.0.0",
    database: string := "MySQL")

  /** The defaults pass the helper checks: the name is not blank, the version is
      well formed and the database is supported. */
  lemma DefaultsAreValid()
    ensures !IsBlank(ApplicationConfig().name)
    ensures ValidateVersionFormat(ApplicationConfig().version)
    ensures FromDisplayName(ApplicationConfig().database) == Some(MySql)
  {
    assert !IsWhitespace(ApplicationConfig().name[0]);
    ExampleVersionOneZeroZero();
    FromDisplayNameRoundTrip(MySql);
  }
}
