// The PostgreSQL connection string: how the secrets backend builds it and how the
// integration library takes it apart again.

module PgConnection {
  import opened Decimal
  import opened Options

  datatype Fields = Fields(scheme: string, user: string, password: string, host: string, port: string, database: string)

  // ---------- building ----------

  /** What the DBaaS response says; `tls` stands for a value that counts as positive. */
  datatype Connection = Connection(fields: map<string, string>, tls: bool)

  /** A missing name is logged and then printed as Python prints None. */
  function DatabaseName(c: Connection): string {
    if "dbName" in c.fields then c.fields["dbName"]
    else if "name" in c.fields then c.fields["name"]
    else "None"
  }

  function SslMode(c: Connection, verification: string): string {
    if !c.tls then "sslmode=disable"
    else if verification == "ENABLED" then "sslmode=verify-ca"
    else if "CERT_PATH:" <= verification then "sslmode=verify-ca&sslrootcert=" + verification[|"CERT_PATH:"|..]
    else "sslmode=require"
  }

  /** parse_pg_connection; a missing key raises. */
  function Build(c: Connection, verification: string): Option<string> {
    if {"username", "password", "host", "port"} <= c.fields.Keys then
      var address := c.fields["username"] + ":" + c.fields["password"] + "@" + c.fields["host"] + ":"
                     + c.fields["port"] + "/" + DatabaseName(c);
      Some("postgresql://" + (address + "?" + SslMode(c, verification)))
    else None
  }

  function FieldsOf(c: Connection): Fields
    requires {"username", "password", "host", "port"} <= c.fields.Keys
  {
    Fields("postgresql", c.fields["username"], c.fields["password"], c.fields["host"], c.fields["port"],
        DatabaseName(c))
  }

  // ---------- reading ----------

  predicate NotColon(c: char) {
    c != ':'
  }

  predicate NotAt(c: char) {
    c != '@'
  }

  predicate HostChar(c: char) {
    c != ':' && c != '/'
  }

  predicate NotQuestion(c: char) {
    c != '?'
  }

  /** `[class]+` */
  predicate Run(inClass: char -> bool, s: string) {
    s != [] && forall i | 0 <= i < |s| :: inClass(s[i])
  }

  function RunLength(inClass: char -> bool, s: string): (n: nat)
    ensures n <= |s|
  {
    if s == [] || !inClass(s[0]) then 0 else 1 + RunLength(inClass, s[1..])
  }

  /** `([class]+)delimiter` at the start of s: the group, and what follows the delimiter. */
  function Take(inClass: char -> bool, delimiter: string, s: string): Option<(string, string)> {
    var n := RunLength(inClass, s);
    if n == 0 || !(delimiter <= s[n..]) then None else Some((s[..n], s[n..][|delimiter|..]))
  }

  lemma {:induction false} RunLengthIs(inClass: char -> bool, s: string, n: nat)
    requires n <= |s| && (forall i | 0 <= i < n :: inClass(s[i])) && (n < |s| ==> !inClass(s[n]))
    ensures RunLength(inClass, s) == n
  {
    if n > 0 { RunLengthIs(inClass, s[1..], n - 1); }
  }

  lemma {:induction false} RunLengthClass(inClass: char -> bool, s: string)
    ensures forall i | 0 <= i < RunLength(inClass, s) :: inClass(s[i])
  {
    if s != [] && inClass(s[0]) {
      RunLengthClass(inClass, s[1..]);
      forall i | 0 <= i < RunLength(inClass, s) ensures inClass(s[i]) {
        if i > 0 { assert s[i] == s[1..][i - 1]; }
      }
    }
  }

  /** There is one way only to take a group off whose class excludes its delimiter. */
  lemma TakeIff(inClass: char -> bool, delimiter: string, s: string, group: string, rest: string)
    requires delimiter != [] && !inClass(delimiter[0])
    ensures Take(inClass, delimiter, s) == Some((group, rest)) <==>
        Run(inClass, group) && s == group + (delimiter + rest)
  {
    RunLengthClass(inClass, s);
    var n := RunLength(inClass, s);
    if Run(inClass, group) && s == group + (delimiter + rest) {
      assert s[|group|] == delimiter[0];
      RunLengthIs(inClass, s, |group|);
      assert s[..n] == group && s[n..] == delimiter + rest;
    }
    if n > 0 && delimiter <= s[n..] {
      assert s[n..] == delimiter + s[n..][|delimiter|..];
      assert s == s[..n] + s[n..];
    }
  }

  /** The groups of the pattern when it matches at the start of s, and the text after the question mark. Its last part
      is repeated any number of times, so it never prevents a match. */
  function Read(s: string): Option<(Fields, string)> {
    match Take(NotColon, "://", s)
    case None => None
    case Some((scheme, s1)) =>
    match Take(NotColon, ":", s1)
    case None => None
    case Some((user, s2)) =>
    match Take(NotAt, "@", s2)
    case None => None
    case Some((password, s3)) =>
    match ReadAddress(s3)
    case None => None
    case Some((host, port, database, query)) => Some((Fields(scheme, user, password, host, port, database), query))
  }

  function ReadAddress(s: string): Option<(string, string, string, string)> {
    match Take(HostChar, ":", s)
    case None => None
    case Some((host, s1)) =>
    match Take(IsDigit, "/", s1)
    case None => None
    case Some((port, s2)) =>
    match Take(NotQuestion, "?", s2)
    case None => None
    case Some((database, query)) => Some((host, port, database, query))
  }

  /** What each group of the pattern may hold. */
  predicate Readable(f: Fields) {
    && Run(NotColon, f.scheme) && Run(NotColon, f.user) && Run(NotAt, f.password)
    && Run(HostChar, f.host) && Run(IsDigit, f.port) && Run(NotQuestion, f.database)
  }

  function Address(host: string, port: string, database: string, query: string): string {
    host + (":" + (port + ("/" + (database + ("?" + query)))))
  }

  function Url(f: Fields, query: string): string {
    f.scheme + ("://" + (f.user + (":" + (f.password + ("@" + Address(f.host, f.port, f.database, query))))))
  }

  lemma ReadAddressIff(s: string, host: string, port: string, database: string, query: string)
    ensures ReadAddress(s) == Some((host, port, database, query)) <==>
            Run(HostChar, host) && Run(IsDigit, port) && Run(NotQuestion, database) &&
                s == Address(host, port, database, query)
  {
    var s2 := database + ("?" + query);
    var s1 := port + ("/" + s2);
    TakeIff(HostChar, ":", s, host, s1);
    TakeIff(IsDigit, "/", s1, port, s2);
    TakeIff(NotQuestion, "?", s2, database, query);
    if ReadAddress(s) == Some((host, port, database, query)) {
      var t1 := Take(HostChar, ":", s).value.1;
      var t2 := Take(IsDigit, "/", t1).value.1;
      TakeIff(HostChar, ":", s, host, t1);
      TakeIff(IsDigit, "/", t1, port, t2);
      TakeIff(NotQuestion, "?", t2, database, query);
    }
  }

  /** The pattern reads a string in one way only: as the readable fields it was put together from. */
  lemma ReadIff(s: string, f: Fields, query: string)
    ensures Read(s) == Some((f, query)) <==> Readable(f) && s == Url(f, query)
  {
    var s3 := Address(f.host, f.port, f.database, query);
    var s2 := f.password + ("@" + s3);
    var s1 := f.user + (":" + s2);
    TakeIff(NotColon, "://", s, f.scheme, s1);
    TakeIff(NotColon, ":", s1, f.user, s2);
    TakeIff(NotAt, "@", s2, f.password, s3);
    ReadAddressIff(s3, f.host, f.port, f.database, query);
    if Read(s) == Some((f, query)) {
      var t1 := Take(NotColon, "://", s).value.1;
      var t2 := Take(NotColon, ":", t1).value.1;
      var t3 := Take(NotAt, "@", t2).value.1;
      TakeIff(NotColon, "://", s, f.scheme, t1);
      TakeIff(NotColon, ":", t1, f.user, t2);
      TakeIff(NotAt, "@", t2, f.password, t3);
      ReadAddressIff(t3, f.host, f.port, f.database, query);
    }
  }

  lemma Regrouped(f: Fields, query: string)
    ensures f.user + ":" + f.password + "@" + f.host + ":" + f.port + "/" + f.database + "?" + query
         == f.user + (":" + (f.password + ("@" + Address(f.host, f.port, f.database, query))))
  {
    assert f.host + ":" + f.port + "/" + f.database + "?" + query == Address(f.host, f.port, f.database, query);
  }

  lemma AfterScheme(rest: string)
    ensures "postgresql://" + rest == "postgresql" + ("://" + rest)
  {
    assert "postgresql://" == "postgresql" + "://";
  }

  lemma BuildIsUrl(c: Connection, verification: string)
    requires {"username", "password", "host", "port"} <= c.fields.Keys
    ensures Build(c, verification) == Some(Url(FieldsOf(c), SslMode(c, verification)))
  {
    var f, query := FieldsOf(c), SslMode(c, verification);
    var rest := f.user + (":" + (f.password + ("@" + Address(f.host, f.port, f.database, query))));
    Regrouped(f, query);
    AfterScheme(rest);
  }

  /** What the backend builds is read back unchanged exactly when user, password, host, port and database are non-empty
      and free of the delimiters that end them; the TLS settings never matter. */
  lemma BuiltReadsBackIff(c: Connection, verification: string)
    requires {"username", "password", "host", "port"} <= c.fields.Keys
    ensures var url := Build(c, verification);
      && url.Some?
      && (Readable(FieldsOf(c)) <==> Read(url.value) == Some((FieldsOf(c), SslMode(c, verification))))
      && (Readable(FieldsOf(c)) <==> exists query :: Read(url.value) == Some((FieldsOf(c), query)))
  {
    BuildIsUrl(c, verification);
    var f, query := FieldsOf(c), SslMode(c, verification);
    var url := Build(c, verification).value;
    ReadIff(url, f, query);
    forall other | Read(url) == Some((f, other)) ensures Readable(f) {
      ReadIff(url, f, other);
    }
  }

  /** Readable field by field. */
  lemma ReadableIff(f: Fields)
    ensures Readable(f) <==>
      && f.scheme != "" && ':' !in f.scheme
      && f.user != "" && ':' !in f.user
      && f.password != "" && '@' !in f.password
      && f.host != "" && ':' !in f.host && '/' !in f.host
      && f.port != "" && (forall c | c in f.port :: '0' <= c <= '9')
      && f.database != "" && '?' !in f.database
  {
    RunIff(NotColon, f.scheme);
    RunIff(NotColon, f.user);
    RunIff(NotAt, f.password);
    RunIff(HostChar, f.host);
    RunIff(IsDigit, f.port);
    RunIff(NotQuestion, f.database);
    assert forall c :: NotColon(c) <==> c != ':';
    assert forall c :: NotAt(c) <==> c != '@';
    assert forall c :: HostChar(c) <==> c != ':' && c != '/';
    assert forall c :: NotQuestion(c) <==> c != '?';
    assert forall c :: IsDigit(c) <==> '0' <= c <= '9';
  }

  lemma RunIff(inClass: char -> bool, s: string)
    ensures Run(inClass, s) <==> s != "" && forall c | c in s :: inClass(c)
  {
    if s != "" && forall c | c in s :: inClass(c) {
      assert forall i | 0 <= i < |s| :: s[i] in s;
    }
  }

  /** Host, user, password and database of the response come back from the URL, the database under whichever key the
      response gives it, and after the question mark the mode that the TLS settings ask for. */
  lemma ReadsBack(c: Connection, verification: string, certificate: string)
    requires {"username", "password", "host", "port"} <= c.fields.Keys && Readable(FieldsOf(c))
    ensures Build(c, verification).Some? && Read(Build(c, verification).value).Some?
    ensures var (read, query) := Read(Build(c, verification).value).value;
      && read.host == c.fields["host"] && read.user == c.fields["username"] && read.password == c.fields["password"]
      && read.port == c.fields["port"] && read.scheme == "postgresql"
      && ("dbName" in c.fields ==> read.database == c.fields["dbName"])
      && ("dbName" !in c.fields && "name" in c.fields ==> read.database == c.fields["name"])
      && ("dbName" !in c.fields && "name" !in c.fields ==> read.database == "None")
      && (!c.tls ==> query == "sslmode=disable")
      && (c.tls && verification == "ENABLED" ==> query == "sslmode=verify-ca")
      && (c.tls && verification == "CERT_PATH:" + certificate ==>
          query == "sslmode=verify-ca&sslrootcert=" + certificate)
      && (c.tls && verification != "ENABLED" && !("CERT_PATH:" <= verification) ==> query == "sslmode=require")
  {
    BuiltReadsBackIff(c, verification);
    if verification == "CERT_PATH:" + certificate {
      assert verification[0] == 'C' && verification != "ENABLED" by { assert "ENABLED"[0] == 'E'; }
      assert verification[|"CERT_PATH:"|..] == certificate;
    }
  }
}
