/**
 * The credentials file read at start-up: the first line holds the MySQL user
 * name and password separated by a comma, the second line the database name.
 * The file's text is the input; reading it is left to the caller.
 */
module Credentials {
  import opened Wrappers
  import opened PyStr

  datatype Login = Login(username: string, password: string, database: string)

  const LoginMissing: string := "MySQL login not found in credentials file."
  const DatabaseMissing: string := "Database data not found in credentials file."

  /** `readline()`: the text up to and including the first newline (all of it if there is none), and what follows. */
  function ReadLine(s: string): (r: (string, string))
    ensures r.0 + r.1 == s
    ensures '\n' in s ==> r.0 != [] && r.0[|r.0| - 1] == '\n' && '\n' !in r.0[..|r.0| - 1]
    ensures '\n' !in s ==> r.0 == s && r.1 == []
  {
    if s == [] then ([], [])
    else if s[0] == '\n' then (['\n'], s[1..])
    else
      var (line, rest) := ReadLine(s[1..]);
      assert s == [s[0]] + s[1..];
      assert '\n' in s ==> '\n' in s[1..];
      ([s[0]] + line, rest)
  }

  /**
   * Lines 274-286: the login is the first line without its newlines, split on
   * commas; it needs at least two fields, whose stripped texts are the user
   * name and password (further fields are ignored). The database is the
   * stripped second line and must not be empty.
   */
  function ParseCredentials(file: string): (r: Result<Login, string>)
    ensures r.Err? ==> r.error == LoginMissing || r.error == DatabaseMissing
    ensures r.Ok? ==> r.value.database != [] && StripSpace(r.value.database) == r.value.database
    ensures r.Ok? ==> StripSpace(r.value.username) == r.value.username && StripSpace(r.value.password) == r.value.password
  {
    var (first, rest) := ReadLine(file);
    var login := Split(Strip(first, {'\n'}), ",");
    if |login| < 2 then Err(LoginMissing)
    else
      var (second, _) := ReadLine(rest);
      var database := StripSpace(second);
      StripIdempotent(second, Whitespace);
      StripIdempotent(login[0], Whitespace);
      StripIdempotent(login[1], Whitespace);
      if |database| < 1 then Err(DatabaseMissing)
      else Ok(Login(StripSpace(login[0]), StripSpace(login[1]), database))
  }

  /** Removing newlines from the ends of a line leaves its commas in place. */
  lemma StripKeeps(s: string, cs: set<char>, c: char)
    requires c !in cs
    ensures c in Strip(s, cs) <==> c in s
  {
    var p := StripMiddle(s, cs);
    OnlyMiddle(s, p, p + |Strip(s, cs)|, cs, c);
  }

  /** A character outside `cs` occurs in a text whose ends hold only `cs` exactly when it occurs in the middle. */
  lemma OnlyMiddle(s: string, p: nat, q: nat, cs: set<char>, c: char)
    requires p <= q <= |s| && c !in cs
    requires AllIn(s[..p], cs) && AllIn(s[q..], cs)
    ensures c in s[p..q] <==> c in s
  {
    forall k | 0 <= k < p
      ensures s[k] in cs
    {
      assert s[..p][k] == s[k];
    }
    forall k | q <= k < |s|
      ensures s[k] in cs
    {
      assert s[q..][k - q] == s[k];
    }
    if c in s {
      var i :| 0 <= i < |s| && s[i] == c;
      assert p <= i < q;
      assert s[p..q][i - p] == c;
    }
  }

  /** The first line has at least two fields exactly when it has a comma. */
  lemma FieldsIffComma(first: string)
    ensures |Split(Strip(first, {'\n'}), ",")| >= 2 <==> ',' in first
  {
    SplitOnCharHasTwoPieces(Strip(first, {'\n'}), ',');
    StripKeeps(first, {'\n'}, ',');
  }

  /** The three outcomes of the parse, by the two lines it reads. */
  lemma ParseOutcome(file: string)
    ensures var login := Split(Strip(ReadLine(file).0, {'\n'}), ",");
      var database := StripSpace(ReadLine(ReadLine(file).1).0);
      (ParseCredentials(file) == Err(LoginMissing) <==> |login| < 2) &&
      (ParseCredentials(file) == Err(DatabaseMissing) <==> |login| >= 2 && database == [])
  {
    assert LoginMissing != DatabaseMissing;
  }

  /** The parse fails with the login message exactly when the first line has no comma. */
  lemma LoginMissingIff(file: string)
    ensures ParseCredentials(file) == Err(LoginMissing) <==> ',' !in ReadLine(file).0
  {
    FieldsIffComma(ReadLine(file).0);
    ParseOutcome(file);
  }

  /** It fails with the database message exactly when the first line has a comma and the second is blank. */
  lemma DatabaseMissingIff(file: string)
    ensures ParseCredentials(file) == Err(DatabaseMissing) <==>
      ',' in ReadLine(file).0 && StripSpace(ReadLine(ReadLine(file).1).0) == []
  {
    FieldsIffComma(ReadLine(file).0);
    ParseOutcome(file);
  }

  /** A comma-free text followed by a comma is the first piece of the split. */
  lemma SplitFirstComma(a: string, rest: string)
    requires ',' !in a
    ensures Split(a + "," + rest, ",") == [a] + Split(rest, ",")
  {
    var s := a + "," + rest;
    assert OccursAt(s, ",", |a|) by {
      assert s[|a|..|a| + 1] == ",";
    }
    var i := Find(s, ",").value;
    assert i <= |a|;
    assert s[i] == ',';
    assert i == |a|;
    assert s[..i] == a;
    assert s[i + 1..] == rest;
  }

  /** A line of two comma-free texts joined by one comma splits back into them. */
  lemma SplitAtComma(a: string, b: string)
    requires ',' !in a && ',' !in b
    ensures Split(a + "," + b, ",") == [a, b]
  {
    SplitFirstComma(a, b);
    SplitOnCharHasTwoPieces(b, ',');
  }

  /** Reading a line that ends in a newline. */
  lemma {:induction false} ReadLineOf(line: string, rest: string)
    requires '\n' !in line
    ensures ReadLine(line + "\n" + rest) == (line + "\n", rest)
  {
    if line != [] {
      assert (line + "\n" + rest)[1..] == line[1..] + "\n" + rest;
      assert line[0] in line;
      ReadLineOf(line[1..], rest);
      assert [line[0]] + (line[1..] + "\n") == line + "\n";
    }
  }

  /** Stripping a text that does not start or end with a stripped character, followed by one such character. */
  lemma StripTrailing(a: string, c: char, cs: set<char>)
    requires c in cs
    requires a == [] || (a[0] !in cs && a[|a| - 1] !in cs)
    ensures Strip(a + [c], cs) == a
  {
    if a != [] {
      assert LStrip(a + [c], cs) == a + [c];
      assert (a + [c])[..|a|] == a;
    }
  }

  /** The file the parse expects: the login line, then the database line. */
  function CredentialsFile(login: Login): string {
    (login.username + "," + login.password) + "\n" + (login.database + "\n")
  }

  /**
   * The parse in terms of the two lines it reads: when the first line has
   * at least two comma-separated fields and the second is not blank, the
   * user name and password are the stripped first two fields, whatever
   * follows them, and the database is the stripped second line.
   */
  lemma ParseCredentialsOfLines(file: string)
    ensures var login := Split(Strip(ReadLine(file).0, {'\n'}), ",");
      var database := StripSpace(ReadLine(ReadLine(file).1).0);
      |login| >= 2 && database != [] ==>
        ParseCredentials(file) == Ok(Login(StripSpace(login[0]), StripSpace(login[1]), database))
  {
  }

  /** A newline-free line followed by a newline reads back, and strips back, to that line. */
  lemma LineOf(line: string, rest: string)
    requires '\n' !in line
    ensures ReadLine(line + "\n" + rest) == (line + "\n", rest)
    ensures Strip(line + "\n", {'\n'}) == line
  {
    ReadLineOf(line, rest);
    if line != [] {
      assert line[0] in line && line[|line| - 1] in line;
    }
    StripTrailing(line, '\n', {'\n'});
  }

  /** The login line of the expected layout reads and splits back into the user name and password. */
  lemma FirstLine(username: string, password: string, rest: string)
    requires ',' !in username && ',' !in password
    requires '\n' !in username && '\n' !in password
    ensures ReadLine((username + "," + password) + "\n" + rest) == ((username + "," + password) + "\n", rest)
    ensures Split(Strip((username + "," + password) + "\n", {'\n'}), ",") == [username, password]
  {
    var first := username + "," + password;
    assert forall i :: 0 <= i < |first| ==> first[i] in username || first[i] == ',' || first[i] in password;
    LineOf(first, rest);
    SplitAtComma(username, password);
  }

  /** The database line of the expected layout reads and strips back into the database name. */
  lemma SecondLine(database: string)
    requires '\n' !in database && database != []
    requires StripSpace(database) == database
    ensures ReadLine(database + "\n").0 == database + "\n"
    ensures StripSpace(database + "\n") == database
  {
    assert database + "\n" == database + "\n" + [];
    ReadLineOf(database, []);
    assert database[0] !in Whitespace && database[|database| - 1] !in Whitespace;
    StripTrailing(database, '\n', Whitespace);
  }

  /**
   * Writing a login out in the expected layout and parsing it gives it back,
   * when its fields are already stripped, the database is not empty and the
   * user name and password hold no comma and no newline.
   */
  lemma ParseCredentialsFile(login: Login)
    requires ',' !in login.username && ',' !in login.password
    requires '\n' !in login.username && '\n' !in login.password && '\n' !in login.database
    requires StripSpace(login.username) == login.username && StripSpace(login.password) == login.password
    requires StripSpace(login.database) == login.database && login.database != []
    ensures ParseCredentials(CredentialsFile(login)) == Ok(login)
  {
    FirstLine(login.username, login.password, login.database + "\n");
    SecondLine(login.database);
    ParseCredentialsOfLines(CredentialsFile(login));
  }

  /**
   * Fields after the second are dropped: a login line `user,pass,extra`
   * parses to the user name `user` and the password `pass`, so a password
   * that itself holds a comma is cut at that comma.
   */
  lemma ExtraFieldsDropped(username: string, password: string, extra: string, database: string)
    requires ',' !in username && ',' !in password
    requires '\n' !in username && '\n' !in password && '\n' !in extra && '\n' !in database
    requires StripSpace(username) == username && StripSpace(password) == password
    requires StripSpace(database) == database && database != []
    ensures ParseCredentials((username + "," + password + "," + extra) + "\n" + (database + "\n"))
      == Ok(Login(username, password, database))
  {
    var line := username + "," + password + "," + extra;
    ExtraLine(username, password, extra);
    LineOf(line, database + "\n");
    SecondLine(database);
    ParseCredentialsOfLines(line + "\n" + (database + "\n"));
  }

  /** A login line with a third field: it has no newline, and its first two fields are the user name and password. */
  lemma ExtraLine(username: string, password: string, extra: string)
    requires ',' !in username && ',' !in password
    requires '\n' !in username && '\n' !in password && '\n' !in extra
    ensures var line := username + "," + password + "," + extra;
      var login := Split(line, ",");
      '\n' !in line && |login| >= 2 && login[0] == username && login[1] == password
  {
    var rest := password + "," + extra;
    assert username + "," + password + "," + extra == username + "," + rest;
    NoCharAcrossComma(password, extra, '\n');
    NoCharAcrossComma(username, rest, '\n');
    SplitFirstComma(username, rest);
    SplitFirstComma(password, extra);
  }

  /** A character other than the comma that is in neither text is not in the two joined by a comma. */
  lemma NoCharAcrossComma(a: string, b: string, c: char)
    requires c !in a && c !in b && c != ','
    ensures c !in a + "," + b
  {
    var s := a + "," + b;
    forall i | 0 <= i < |s|
      ensures s[i] != c
    {
      if i < |a| {
        assert s[i] == a[i];
      } else if i > |a| {
        assert s[i] == b[i - |a| - 1];
      }
    }
  }
}
