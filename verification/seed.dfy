/** The credential-table seeder (`baudolo.seed`): validating the database
    column, and adding or updating one row of `databases.csv`. */
module Seed {
  import opened Wrappers
  import opened Text
  import opened Credentials

  /** Why a database value is refused. */
  datatype SeedError =
    | EmptyDatabase(instance: string)
    | NanDatabase(instance: string)
    | InvalidName(instance: string, name: string)

  /** `[a-zA-Z0-9_]`: a character a database name may start with. */
  predicate IsNameStart(c: char) {
    ('a' <= c <= 'z') || ('A' <= c <= 'Z') || ('0' <= c <= '9') || c == '_'
  }

  /** `[a-zA-Z0-9_-]`: a character a database name may contain. */
  predicate IsNameChar(c: char) {
    IsNameStart(c) || c == '-'
  }

  /** The names the seeder means to allow: letters, digits, `_` and `-`,
      not starting with `-`. */
  predicate IsDbName(s: string) {
    |s| > 0 && IsNameStart(s[0]) && forall k :: 1 <= k < |s| ==> IsNameChar(s[k])
  }

  /** The end of the run of name characters starting at `i`. */
  function NameRunEnd(s: string, i: nat): (k: nat)
    requires i <= |s|
    ensures i <= k <= |s|
    ensures forall j :: i <= j < k ==> IsNameChar(s[j])
    ensures k == |s| || !IsNameChar(s[k])
    decreases |s| - i
  {
    if i < |s| && IsNameChar(s[i]) then NameRunEnd(s, i + 1) else i
  }

  /** `DB_NAME_RE.match(s)` for `^[a-zA-Z0-9_][a-zA-Z0-9_-]*$`. The star is
      greedy, and backing off cannot help: every shorter end stops on a name
      character, where `$` fails. Python's `$` also matches just before a
      final newline, so one trailing `\n` is let through. */
  function MatchesDbNameRe(s: string): (r: bool)
    ensures r <==> IsDbName(s) || (|s| >= 2 && s[|s| - 1] == '\n' && IsDbName(s[..|s| - 1]))
  {
    if |s| == 0 || !IsNameStart(s[0]) then false
    else
      var k := NameRunEnd(s, 1);
      k == |s| || (k == |s| - 1 && s[k] == '\n')
  }

  /** `v.lower() == "nan"`. No code point other than `N` and `A` lowercases
      to `n` or `a`, and the only code point lowercasing to two characters
      gives an `i` first, so exactly the eight spellings of "nan" qualify. */
  predicate IsNanAnyCase(v: string) {
    |v| == 3 && (v[0] == 'n' || v[0] == 'N') && (v[1] == 'a' || v[1] == 'A') && (v[2] == 'n' || v[2] == 'N')
  }

  /** A stripped value never ends in a newline, so the regular expression's
      allowance for one does not matter to the validator. */
  lemma StrippedMatchesExactly(v: string)
    requires v == [] || !IsSpace(v[|v| - 1])
    ensures MatchesDbNameRe(v) <==> IsDbName(v)
  {
  }

  /** `_validate_database_value(value, instance=instance)`: strip, refuse
      empty, let `*` through, refuse "nan" in any case, and otherwise demand
      a database name. The value returned is the stripped input. */
  function ValidateDatabaseValue(value: Option<string>, instance: string): (r: Result<string, SeedError>)
    ensures var v := Strip(value.GetOr(""));
            && (r.Success? <==> v == "*" || (IsDbName(v) && !IsNanAnyCase(v)))
            && (r.Success? ==> r.value == v)
            && (r.Failure? ==> r.error.instance == instance)
            && (r.Failure? ==> (r.error.EmptyDatabase? <==> v == ""))
            && (r.Failure? ==> (r.error.NanDatabase? <==> IsNanAnyCase(v)))
            && (r.Failure? && r.error.InvalidName? ==> r.error.name == v)
  {
    var v := Strip(value.GetOr(""));
    StrippedMatchesExactly(v);
    if v == "" then Failure(EmptyDatabase(instance))
    else if v == "*" then Success("*")
    else if IsNanAnyCase(v) then Failure(NanDatabase(instance))
    else if !MatchesDbNameRe(v) then Failure(InvalidName(instance, v))
    else Success(v)
  }

  /** An accepted value is accepted again unchanged. */
  lemma ValidateIdempotent(value: Option<string>, instance: string)
    requires ValidateDatabaseValue(value, instance).Success?
    ensures ValidateDatabaseValue(Some(ValidateDatabaseValue(value, instance).value), instance)
            == ValidateDatabaseValue(value, instance)
  {
    StripIdempotent(value.GetOr(""));
  }

  /** A value with no whitespace at either end strips to itself. */
  lemma StripClean(s: string)
    requires |s| > 0 && !IsSpace(s[0]) && !IsSpace(s[|s| - 1])
    ensures Strip(s) == s
  {
  }

  /** A name with `_` and `-`, with any padding, is accepted stripped. */
  lemma AcceptsNameWithDash(value: Option<string>, instance: string)
    requires Strip(value.GetOr("")) == "my_db-1"
    ensures ValidateDatabaseValue(value, instance) == Success("my_db-1")
  {
    DashNameIsName();
  }

  lemma DashNameIsName()
    ensures IsDbName("my_db-1")
  {
    var v := "my_db-1";
    assert forall k :: 1 <= k < |v| ==> IsNameChar(v[k]);
  }

  /** `*` is accepted, with its padding stripped. */
  lemma AcceptsPaddedStar(instance: string)
    ensures ValidateDatabaseValue(Some(" * "), instance) == Success("*")
  {
    assert IsSpace(' ') && !IsSpace('*');
    assert TrimLeft(" * ") == TrimLeft(" * "[1..]) == "* ";
    assert TrimRight("* ") == TrimRight("* "[..1]) == "*";
  }

  /** A leading `-` is refused as an invalid name. */
  lemma RefusesLeadingDash(value: Option<string>, instance: string)
    requires Strip(value.GetOr("")) == "-db"
    ensures ValidateDatabaseValue(value, instance) == Failure(InvalidName(instance, "-db"))
  {
    var v := "-db";
    assert !IsNameStart(v[0]);
  }

  /** An inner space is refused as an invalid name. */
  lemma RefusesInnerSpace(value: Option<string>, instance: string)
    requires Strip(value.GetOr("")) == "a b"
    ensures ValidateDatabaseValue(value, instance) == Failure(InvalidName(instance, "a b"))
  {
    var v := "a b";
    assert !IsNameChar(v[1]);
  }

  /** "NaN", in any case and with any padding, is refused as not-a-number. */
  lemma RefusesNan(value: Option<string>, instance: string)
    requires IsNanAnyCase(Strip(value.GetOr("")))
    ensures ValidateDatabaseValue(value, instance) == Failure(NanDatabase(instance))
  {
  }

  /** A blank or missing value is refused as empty. */
  lemma RefusesBlank(instance: string)
    ensures ValidateDatabaseValue(Some("  "), instance) == Failure(EmptyDatabase(instance))
    ensures ValidateDatabaseValue(None, instance) == Failure(EmptyDatabase(instance))
  {
    var v := "  ";
    assert forall k :: 0 <= k < |v| ==> IsSpace(v[k]);
    StripEmptyIffAllSpace(v);
    StripEmptyIffAllSpace("");
  }

  // ---------------------------------------------------------------------
  // The upsert
  // ---------------------------------------------------------------------

  /** The row is keyed by `(instance, database)`. */
  predicate HasKey(row: CredentialRow, instance: string, database: string) {
    row.instance == instance && row.database == database
  }

  predicate TableHasKey(table: seq<CredentialRow>, instance: string, database: string) {
    exists i :: 0 <= i < |table| && HasKey(table[i], instance, database)
  }

  /** `df.loc[mask, ["username", "password"]] = [username, password]`. */
  function UpdateCredentials(table: seq<CredentialRow>, instance: string, database: string,
                             username: string, password: string): (r: seq<CredentialRow>)
    ensures |r| == |table|
    ensures forall i :: 0 <= i < |table| ==>
              r[i] == if HasKey(table[i], instance, database)
                      then CredentialRow(instance, database, username, password)
                      else table[i]
    decreases |table|
  {
    if |table| == 0 then []
    else
      var row := table[0];
      var first := if HasKey(row, instance, database) then CredentialRow(instance, database, username, password) else row;
      [first] + UpdateCredentials(table[1..], instance, database, username, password)
  }

  /** The table after writing the row `(instance, database, username,
      password)`: the credentials of every row with that key are replaced,
      or the row is appended when there is none. */
  function Upsert(table: seq<CredentialRow>, instance: string, database: string,
                  username: string, password: string): (r: seq<CredentialRow>)
    ensures var row := CredentialRow(instance, database, username, password);
            && (TableHasKey(table, instance, database) ==>
                  |r| == |table|
                  && forall i :: 0 <= i < |table| ==>
                       (HasKey(table[i], instance, database) ==> r[i] == row)
                       && (!HasKey(table[i], instance, database) ==> r[i] == table[i]))
            && (!TableHasKey(table, instance, database) ==> r == table + [row])
  {
    if TableHasKey(table, instance, database) then UpdateCredentials(table, instance, database, username, password)
    else table + [CredentialRow(instance, database, username, password)]
  }

  /** `check_and_add_entry` on the current contents of the file (`None` when
      there is no file): validation first, before the file is read; then the
      upsert of the validated value. */
  function CheckAndAddEntry(file: Option<seq<CredentialRow>>, instance: string, database: Option<string>,
                            username: string, password: string): (r: Result<seq<CredentialRow>, SeedError>)
    ensures var valid := ValidateDatabaseValue(database, instance);
            && (r.Failure? <==> valid.Failure?)
            && (r.Failure? ==> r.error == valid.error)
            && (r.Success? ==> r.value == Upsert(file.GetOr([]), instance, valid.value, username, password))
  {
    match ValidateDatabaseValue(database, instance)
    case Failure(e) => Failure(e)
    case Success(db) => Success(Upsert(file.GetOr([]), instance, db, username, password))
  }

  /** Updating changes nothing when every row with the key already holds
      the new credentials. */
  lemma UpdateFixedPoint(table: seq<CredentialRow>, instance: string, database: string,
                         username: string, password: string)
    requires forall k :: 0 <= k < |table| && HasKey(table[k], instance, database) ==>
               table[k] == CredentialRow(instance, database, username, password)
    ensures UpdateCredentials(table, instance, database, username, password) == table
  {
  }

  /** Writing the same row twice gives the same table as writing it once. */
  lemma UpsertIdempotent(table: seq<CredentialRow>, instance: string, database: string,
                         username: string, password: string)
    ensures var once := Upsert(table, instance, database, username, password);
            Upsert(once, instance, database, username, password) == once
  {
    var once := Upsert(table, instance, database, username, password);
    if TableHasKey(table, instance, database) {
      var i :| 0 <= i < |table| && HasKey(table[i], instance, database);
      assert HasKey(once[i], instance, database);
    } else {
      assert HasKey(once[|table|], instance, database);
    }
    assert TableHasKey(once, instance, database);
    UpdateFixedPoint(once, instance, database, username, password);
  }

  /** Seeding the same entry twice gives the same table as seeding it once. */
  lemma SeedIdempotent(file: Option<seq<CredentialRow>>, instance: string, database: Option<string>,
                       username: string, password: string)
    requires CheckAndAddEntry(file, instance, database, username, password).Success?
    ensures var once := CheckAndAddEntry(file, instance, database, username, password).value;
            CheckAndAddEntry(Some(once), instance, database, username, password) == Success(once)
  {
    var db := ValidateDatabaseValue(database, instance).value;
    UpsertIdempotent(file.GetOr([]), instance, db, username, password);
  }

  /** After writing, the row is in the table among the rows of its instance. */
  lemma UpsertEntryFound(table: seq<CredentialRow>, instance: string, database: string,
                         username: string, password: string)
    ensures CredentialRow(instance, database, username, password)
            in EntriesFor(Upsert(table, instance, database, username, password), instance)
  {
    var r := Upsert(table, instance, database, username, password);
    if TableHasKey(table, instance, database) {
      var i :| 0 <= i < |table| && HasKey(table[i], instance, database);
      assert r[i] == CredentialRow(instance, database, username, password);
    } else {
      assert r[|table|] == CredentialRow(instance, database, username, password);
    }
  }

  /** After seeding, the backup finds the row for the validated database
      among the rows of its instance. */
  lemma SeedEntryFound(file: Option<seq<CredentialRow>>, instance: string, database: Option<string>,
                       username: string, password: string)
    requires CheckAndAddEntry(file, instance, database, username, password).Success?
    ensures var db := ValidateDatabaseValue(database, instance).value;
            var table := CheckAndAddEntry(file, instance, database, username, password).value;
            CredentialRow(instance, db, username, password) in EntriesFor(table, instance)
  {
    UpsertEntryFound(file.GetOr([]), instance, ValidateDatabaseValue(database, instance).value, username, password);
  }

  /** No two rows share an `(instance, database)` key. */
  predicate UniqueKeys(table: seq<CredentialRow>) {
    forall i, j :: 0 <= i < j < |table| ==> !HasKey(table[j], table[i].instance, table[i].database)
  }

  /** Writing never creates a second row for a key. */
  lemma UpsertKeepsKeysUnique(table: seq<CredentialRow>, instance: string, database: string,
                              username: string, password: string)
    requires UniqueKeys(table)
    ensures UniqueKeys(Upsert(table, instance, database, username, password))
  {
    var r := Upsert(table, instance, database, username, password);
    if TableHasKey(table, instance, database) {
      assert forall k :: 0 <= k < |r| ==> r[k].instance == table[k].instance && r[k].database == table[k].database;
    } else {
      assert r == table + [CredentialRow(instance, database, username, password)];
      assert forall k :: 0 <= k < |table| ==> r[k] == table[k];
    }
  }

  /** Seeding never creates a second row for a key. */
  lemma SeedKeepsKeysUnique(file: Option<seq<CredentialRow>>, instance: string, database: Option<string>,
                            username: string, password: string)
    requires UniqueKeys(file.GetOr([]))
    requires CheckAndAddEntry(file, instance, database, username, password).Success?
    ensures UniqueKeys(CheckAndAddEntry(file, instance, database, username, password).value)
  {
    UpsertKeepsKeysUnique(file.GetOr([]), instance, ValidateDatabaseValue(database, instance).value, username, password);
  }

  /** `main`: the file after the call and the exit status. A refused value
      exits with status 1 before the file is opened, so the file, or its
      absence, is left as it was. */
  function SeedMain(file: Option<seq<CredentialRow>>, instance: string, database: string,
                    username: string, password: string): (r: (Option<seq<CredentialRow>>, int))
    ensures r.1 == 0 || r.1 == 1
    ensures r.1 == 1 <==> ValidateDatabaseValue(Some(database), instance).Failure?
    ensures r.1 == 1 ==> r.0 == file
    ensures r.1 == 0 ==> r.0.Some? && CheckAndAddEntry(file, instance, Some(database), username, password) == Success(r.0.value)
  {
    match CheckAndAddEntry(file, instance, Some(database), username, password)
    case Failure(_) => (file, 1)
    case Success(table) => (Some(table), 0)
  }
}
