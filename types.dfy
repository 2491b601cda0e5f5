/**
 * The data model shared by the duplikat client and daemon
 * (duplikat-types/src/lib.rs) and its derived JSON encoding.
 *
 * Serialize and Deserialize are derived for all three types: a struct is
 * written as an object whose members follow the field declarations, and the
 * kind as the lowercase name of its variant. Reading back is serde's derived
 * visitor: members may come in any order, a member that names no field is
 * skipped, a field given twice or not at all is an error, and so is a field
 * holding the wrong kind of value or a kind string that names no variant.
 */
module DuplikatTypes {
  import opened Wrappers
  import opened Json

  datatype RepositoryKind = Local | SFTP | B2

  datatype Repository = Repository(kind: RepositoryKind, identifier: string, path: string)

  datatype Backup = Backup(name: string, repository: Repository, password: string)

  const KindNames: set<string> := {"local", "sftp", "b2"}

  /** The string a kind is written as: the variant's name in lower case. */
  function KindName(k: RepositoryKind): (r: string)
    ensures r in KindNames && EscapeFree(r) && ':' !in r
  {
    match k
    case Local => "local"
    case SFTP => "sftp"
    case B2 => "b2"
  }

  /** The variant a string names. Only the three lowercase names are accepted. */
  function KindFromName(s: string): (r: Option<RepositoryKind>)
    ensures r.Some? <==> s in KindNames
    ensures r.Some? ==> KindName(r.value) == s
  {
    if s == "local" then Some(Local)
    else if s == "sftp" then Some(SFTP)
    else if s == "b2" then Some(B2)
    else None
  }

  /** Distinct kinds have distinct names, and each name leads back to its kind. */
  lemma KindNameInverse(k: RepositoryKind, k': RepositoryKind)
    ensures KindFromName(KindName(k)) == Some(k)
    ensures KindName(k) == KindName(k') <==> k == k'
  {
  }

  // ---------------------------------------------------------------------
  // Encoding

  function KindValue(k: RepositoryKind): Value {
    Str(KindName(k))
  }

  /** An object with the members of Repository, in declaration order. */
  function RepositoryObject(kind: Value, identifier: string, path: string): Value {
    Obj([Member("kind", kind), Member("identifier", Str(identifier)), Member("path", Str(path))])
  }

  /** An object with the members of Backup, in declaration order. */
  function BackupObject(name: string, repository: Value, password: string): Value {
    Obj([Member("name", Str(name)), Member("repository", repository), Member("password", Str(password))])
  }

  function RepositoryValue(r: Repository): Value {
    RepositoryObject(KindValue(r.kind), r.identifier, r.path)
  }

  function BackupValue(b: Backup): Value {
    BackupObject(b.name, RepositoryValue(b.repository), b.password)
  }

  /** `serde_json::to_string` of a Repository. */
  function EncodeRepository(r: Repository): string {
    Print(RepositoryValue(r))
  }

  /** `serde_json::to_string` of a Backup. */
  function Encode(b: Backup): string {
    Print(BackupValue(b))
  }

  // ---------------------------------------------------------------------
  // Decoding

  const RepositoryFields: set<string> := {"kind", "identifier", "path"}
  const BackupFields: set<string> := {"name", "repository", "password"}

  /** How many members carry `key`. */
  function Count(ms: seq<Member>, key: string): nat {
    if ms == [] then 0 else (if ms[0].key == key then 1 else 0) + Count(ms[1..], key)
  }

  /** The value of the first member that carries `key`. */
  function Find(ms: seq<Member>, key: string): (r: Option<Value>)
    ensures r.Some? <==> Count(ms, key) > 0
  {
    if ms == [] then None
    else if ms[0].key == key then Some(ms[0].value)
    else Find(ms[1..], key)
  }

  /** The derived visitor's pass over the members of an object: a member that
      names a field is kept the first time and refused the second time; any
      other member is skipped. `acc` holds the fields already seen. */
  function Collect(ms: seq<Member>, fields: set<string>, acc: map<string, Value>): Result<map<string, Value>, Error> {
    if ms == [] then Success(acc)
    else if ms[0].key !in fields then Collect(ms[1..], fields, acc)
    else if ms[0].key in acc then Failure(DuplicateField(ms[0].key))
    else Collect(ms[1..], fields, acc[ms[0].key := ms[0].value])
  }

  function Required(m: map<string, Value>, field: string): Result<Value, Error> {
    if field in m then Success(m[field]) else Failure(MissingField(field))
  }

  function DecodeString(v: Value): Result<string, Error> {
    if v.Str? then Success(v.s) else Failure(InvalidType)
  }

  /** A kind is read from a string naming one of the variants in lower case;
      any other string is an unknown variant. */
  function DecodeKind(v: Value): (r: Result<RepositoryKind, Error>)
    ensures r.Success? <==> v.Str? && v.s in KindNames
    ensures r.Success? ==> KindName(r.value) == v.s
    ensures v.Str? && v.s !in KindNames ==> r == Failure(UnknownVariant(v.s))
  {
    if !v.Str? then Failure(InvalidType)
    else match KindFromName(v.s)
      case None => Failure(UnknownVariant(v.s))
      case Some(k) => Success(k)
  }

  function DecodeRepository(v: Value): Result<Repository, Error> {
    if !v.Obj? then Failure(InvalidType)
    else
      var m :- Collect(v.members, RepositoryFields, map[]);
      var kind :- Required(m, "kind");
      var identifier :- Required(m, "identifier");
      var path :- Required(m, "path");
      var k :- DecodeKind(kind);
      var i :- DecodeString(identifier);
      var p :- DecodeString(path);
      Success(Repository(k, i, p))
  }

  function DecodeBackup(v: Value): Result<Backup, Error> {
    if !v.Obj? then Failure(InvalidType)
    else
      var m :- Collect(v.members, BackupFields, map[]);
      var name :- Required(m, "name");
      var repository :- Required(m, "repository");
      var password :- Required(m, "password");
      var n :- DecodeString(name);
      var r :- DecodeRepository(repository);
      var p :- DecodeString(password);
      Success(Backup(n, r, p))
  }

  /** `serde_json::from_str::<Repository>`. */
  function DecodeRepositoryText(s: string): Result<Repository, Error> {
    var v :- Parse(s);
    DecodeRepository(v)
  }

  /** `serde_json::from_str::<Backup>`. */
  function Decode(s: string): Result<Backup, Error> {
    var v :- Parse(s);
    DecodeBackup(v)
  }

  // ---------------------------------------------------------------------
  // What decoding accepts, stated by looking fields up

  /** No field occurs more than once, counting the ones already in `acc`. */
  ghost predicate AtMostOnce(ms: seq<Member>, fields: set<string>, acc: map<string, Value>) {
    forall f :: f in fields ==> Count(ms, f) + (if f in acc then 1 else 0) <= 1
  }

  /** Each field with its value: from `acc`, or else from its member. */
  ghost function Gathered(ms: seq<Member>, fields: set<string>, acc: map<string, Value>): map<string, Value> {
    map f | f in fields && (f in acc || Find(ms, f).Some?) :: if f in acc then acc[f] else Find(ms, f).value
  }

  lemma {:induction false} CollectSpec(ms: seq<Member>, fields: set<string>, acc: map<string, Value>)
    requires acc.Keys <= fields
    ensures Collect(ms, fields, acc).Success? <==> AtMostOnce(ms, fields, acc)
    ensures Collect(ms, fields, acc).Success? ==> Collect(ms, fields, acc).value == Gathered(ms, fields, acc)
  {
    if ms == [] {
      assert Gathered(ms, fields, acc) == acc;
    } else if ms[0].key !in fields {
      CollectSpec(ms[1..], fields, acc);
      SkippedMember(ms, fields, acc);
    } else if ms[0].key in acc {
      assert Count(ms, ms[0].key) + 1 > 1;
    } else {
      CollectSpec(ms[1..], fields, acc[ms[0].key := ms[0].value]);
      KeptMember(ms, fields, acc);
    }
  }

  /** A member that names no field changes nothing. */
  lemma SkippedMember(ms: seq<Member>, fields: set<string>, acc: map<string, Value>)
    requires ms != [] && ms[0].key !in fields
    ensures AtMostOnce(ms, fields, acc) <==> AtMostOnce(ms[1..], fields, acc)
    ensures Gathered(ms, fields, acc) == Gathered(ms[1..], fields, acc)
  {
    assert forall f :: f in fields ==> Count(ms, f) == Count(ms[1..], f) && Find(ms, f) == Find(ms[1..], f);
  }

  /** A field met for the first time moves into `acc`. */
  lemma KeptMember(ms: seq<Member>, fields: set<string>, acc: map<string, Value>)
    requires ms != [] && ms[0].key in fields && ms[0].key !in acc
    ensures AtMostOnce(ms, fields, acc) <==> AtMostOnce(ms[1..], fields, acc[ms[0].key := ms[0].value])
    ensures Gathered(ms, fields, acc) == Gathered(ms[1..], fields, acc[ms[0].key := ms[0].value])
  {
    var k, tail, acc' := ms[0].key, ms[1..], acc[ms[0].key := ms[0].value];
    assert forall f :: f in fields && f != k ==> Count(ms, f) == Count(tail, f) && Find(ms, f) == Find(tail, f);
    assert Count(ms, k) == 1 + Count(tail, k);
    assert Find(ms, k) == Some(ms[0].value);
    var g, g' := Gathered(ms, fields, acc), Gathered(tail, fields, acc');
    assert g.Keys == g'.Keys;
    assert forall f :: f in g ==> g[f] == g'[f];
  }

  /** The value of field `f` when exactly one member carries it. */
  function Field(ms: seq<Member>, f: string): Option<Value> {
    if Count(ms, f) == 1 then Find(ms, f) else None
  }

  /** The text of field `f` when exactly one member carries it and holds a string. */
  function FieldText(ms: seq<Member>, f: string): Option<string> {
    match Field(ms, f)
    case Some(Str(s)) => Some(s)
    case _ => None
  }

  /** Decoding an object succeeds exactly when each of Repository's fields
      occurs once, kind holding one of the three names and the others
      strings, whatever other members there are and in whatever order; the
      result is made of those fields. */
  lemma DecodeRepositoryByLookup(ms: seq<Member>)
    ensures DecodeRepository(Obj(ms)).Success? <==>
      && FieldText(ms, "kind").Some? && FieldText(ms, "kind").value in KindNames
      && FieldText(ms, "identifier").Some? && FieldText(ms, "path").Some?
    ensures DecodeRepository(Obj(ms)).Success? ==>
      DecodeRepository(Obj(ms)).value == Repository(
        KindFromName(FieldText(ms, "kind").value).value,
        FieldText(ms, "identifier").value,
        FieldText(ms, "path").value)
  {
    CollectSpec(ms, RepositoryFields, map[]);
  }

  /** The same for Backup, its repository field decoded as above. */
  lemma DecodeBackupByLookup(ms: seq<Member>)
    ensures DecodeBackup(Obj(ms)).Success? <==>
      && FieldText(ms, "name").Some?
      && Field(ms, "repository").Some? && DecodeRepository(Field(ms, "repository").value).Success?
      && FieldText(ms, "password").Some?
    ensures DecodeBackup(Obj(ms)).Success? ==>
      DecodeBackup(Obj(ms)).value == Backup(
        FieldText(ms, "name").value,
        DecodeRepository(Field(ms, "repository").value).value,
        FieldText(ms, "password").value)
  {
    CollectSpec(ms, BackupFields, map[]);
  }

  // ---------------------------------------------------------------------
  // The wire layout

  /** The text serde_json writes for a Repository, spelled out: an object
      with the members kind, identifier and path, in that order, with no
      whitespace. */
  function RepositoryText(kindText: string, identifier: string, path: string): string {
    "{" + Quote("kind") + ":" + Quote(kindText)
    + "," + Quote("identifier") + ":" + Quote(identifier)
    + "," + Quote("path") + ":" + Quote(path) + "}"
  }

  /** The text serde_json writes for a Backup: members name, repository (the
      nested object) and password, in that order. */
  function BackupText(name: string, kindText: string, identifier: string, path: string, password: string): string {
    "{" + Quote("name") + ":" + Quote(name)
    + "," + Quote("repository") + ":" + RepositoryText(kindText, identifier, path)
    + "," + Quote("password") + ":" + Quote(password) + "}"
  }

  lemma PrintThree(a: Member, b: Member, c: Member)
    ensures Print(Obj([a, b, c])) ==
      "{" + (Quote(a.key) + ":" + Print(a.value)) + "," + (Quote(b.key) + ":" + Print(b.value))
      + "," + (Quote(c.key) + ":" + Print(c.value)) + "}"
  {
    PrintMembersThree(a, b, c);
    var pa, pb, pc := Quote(a.key) + ":" + Print(a.value), Quote(b.key) + ":" + Print(b.value), Quote(c.key) + ":" + Print(c.value);
    Assoc(pb, ",", pc);
    Assoc(pa, ",", pb + "," + pc);
    Assoc(pa + ",", pb, "," + pc);
    Assoc(pa + "," + pb, ",", pc);
    Assoc("{", pa + "," + pb + "," + pc, "}");
  }

  lemma PrintMembersThree(a: Member, b: Member, c: Member)
    ensures PrintMembers([a, b, c]) ==
      Quote(a.key) + ":" + Print(a.value)
      + ("," + (Quote(b.key) + ":" + Print(b.value) + ("," + (Quote(c.key) + ":" + Print(c.value)))))
  {
    var pc := Quote(c.key) + ":" + Print(c.value);
    assert [a, b, c][1..] == [b, c];
    assert [b, c][1..] == [c];
    assert PrintMembers([c]) == pc + "";
    assert pc + "" == pc;
  }

  /** The text of a three-member object with each member's pieces joined
      is the flat text. */
  lemma ObjectText(k1: string, v1: string, k2: string, v2: string, k3: string, v3: string)
    ensures "{" + (k1 + ":" + v1) + "," + (k2 + ":" + v2) + "," + (k3 + ":" + v3) + "}"
      == "{" + k1 + ":" + v1 + "," + k2 + ":" + v2 + "," + k3 + ":" + v3 + "}"
  {
  }

  lemma PrintRepositoryObject(kindText: string, identifier: string, path: string)
    ensures Print(RepositoryObject(Str(kindText), identifier, path)) == RepositoryText(kindText, identifier, path)
  {
    PrintThree(Member("kind", Str(kindText)), Member("identifier", Str(identifier)), Member("path", Str(path)));
    ObjectText(Quote("kind"), Quote(kindText), Quote("identifier"), Quote(identifier), Quote("path"), Quote(path));
  }

  lemma PrintBackupObject(name: string, kindText: string, identifier: string, path: string, password: string)
    ensures Print(BackupObject(name, RepositoryObject(Str(kindText), identifier, path), password))
      == BackupText(name, kindText, identifier, path, password)
  {
    var repository := RepositoryObject(Str(kindText), identifier, path);
    PrintThree(Member("name", Str(name)), Member("repository", repository), Member("password", Str(password)));
    PrintRepositoryObject(kindText, identifier, path);
    ObjectText(Quote("name"), Quote(name), Quote("repository"), RepositoryText(kindText, identifier, path),
      Quote("password"), Quote(password));
  }

  /** A Repository is written as an object with kind, identifier and path, in
      that order; the kind as its lowercase name. */
  lemma EncodeRepositoryLayout(r: Repository)
    ensures EncodeRepository(r) == RepositoryText(KindName(r.kind), r.identifier, r.path)
  {
    PrintRepositoryObject(KindName(r.kind), r.identifier, r.path);
  }

  /** A Backup is written as an object with name, repository and password, in
      that order, the repository nested. */
  lemma EncodeLayout(b: Backup)
    ensures Encode(b) == BackupText(b.name, KindName(b.repository.kind), b.repository.identifier, b.repository.path, b.password)
  {
    PrintBackupObject(b.name, KindName(b.repository.kind), b.repository.identifier, b.repository.path, b.password);
  }

  /** The value of the `it_works` test. */
  const TestBackup: Backup := Backup("test", Repository(B2, "server-test", "/system"), "pass")

  /** The `it_works` test: the exact text the test value is written as. The
      expected text is spelled out as one literal per member, the nested
      repository's three members between its braces. */
  lemma TestBackupEncoding()
    ensures Encode(TestBackup)
      == "{\"name\":\"test\"" + ",\"repository\":"
        + "{\"kind\":\"b2\"" + ",\"identifier\":\"server-test\"" + ",\"path\":\"/system\"}"
        + ",\"password\":\"pass\"}"
  {
    EncodeLayout(TestBackup);
    TestBackupText();
  }

  lemma TestBackupText()
    ensures BackupText("test", "b2", "server-test", "/system", "pass")
      == "{\"name\":\"test\"" + ",\"repository\":"
        + "{\"kind\":\"b2\"" + ",\"identifier\":\"server-test\"" + ",\"path\":\"/system\"}"
        + ",\"password\":\"pass\"}"
  {
    var r := RepositoryText("b2", "server-test", "/system");
    calc {
      BackupText("test", "b2", "server-test", "/system", "pass");
      "{" + Quote("name") + ":" + Quote("test")
        + "," + Quote("repository") + ":" + r
        + "," + Quote("password") + ":" + Quote("pass") + "}";
      { NameTestPiece();
        HeadText("name", "test", "{\"name\":\"test\"", "," + Quote("repository") + ":" + r
          + "," + Quote("password") + ":" + Quote("pass") + "}"); }
      "{\"name\":\"test\""
        + "," + Quote("repository") + ":" + r
        + "," + Quote("password") + ":" + Quote("pass") + "}";
      { RepositoryKeyPiece();
        KeyText("{\"name\":\"test\"", "repository", ",\"repository\":"); }
      "{\"name\":\"test\"" + ",\"repository\":" + r
        + "," + Quote("password") + ":" + Quote("pass") + "}";
      { TestRepositoryText();
        var head := "{\"name\":\"test\"" + ",\"repository\":";
        Assoc(head, "{\"kind\":\"b2\"" + ",\"identifier\":\"server-test\"", ",\"path\":\"/system\"}");
        Assoc(head, "{\"kind\":\"b2\"", ",\"identifier\":\"server-test\""); }
      "{\"name\":\"test\"" + ",\"repository\":"
        + "{\"kind\":\"b2\"" + ",\"identifier\":\"server-test\"" + ",\"path\":\"/system\"}"
        + "," + Quote("password") + ":" + Quote("pass") + "}";
      { PasswordPassPiece();
        LastText("{\"name\":\"test\"" + ",\"repository\":"
          + "{\"kind\":\"b2\"" + ",\"identifier\":\"server-test\"" + ",\"path\":\"/system\"}",
          "password", "pass", ",\"password\":\"pass\"}"); }
      "{\"name\":\"test\"" + ",\"repository\":"
        + "{\"kind\":\"b2\"" + ",\"identifier\":\"server-test\"" + ",\"path\":\"/system\"}"
        + ",\"password\":\"pass\"}";
    }
  }

  lemma TestRepositoryText()
    ensures RepositoryText("b2", "server-test", "/system")
      == "{\"kind\":\"b2\"" + ",\"identifier\":\"server-test\"" + ",\"path\":\"/system\"}"
  {
    calc {
      RepositoryText("b2", "server-test", "/system");
      "{" + Quote("kind") + ":" + Quote("b2")
        + "," + Quote("identifier") + ":" + Quote("server-test")
        + "," + Quote("path") + ":" + Quote("/system") + "}";
      { KindB2Piece();
        HeadText("kind", "b2", "{\"kind\":\"b2\"", "," + Quote("identifier") + ":" + Quote("server-test")
          + "," + Quote("path") + ":" + Quote("/system") + "}"); }
      "{\"kind\":\"b2\""
        + "," + Quote("identifier") + ":" + Quote("server-test")
        + "," + Quote("path") + ":" + Quote("/system") + "}";
      { IdentifierPiece();
        MemberText("{\"kind\":\"b2\"", "identifier", "server-test", ",\"identifier\":\"server-test\""); }
      "{\"kind\":\"b2\"" + ",\"identifier\":\"server-test\""
        + "," + Quote("path") + ":" + Quote("/system") + "}";
      { PathSystemPiece();
        LastText("{\"kind\":\"b2\"" + ",\"identifier\":\"server-test\"", "path", "/system", ",\"path\":\"/system\"}"); }
      "{\"kind\":\"b2\"" + ",\"identifier\":\"server-test\"" + ",\"path\":\"/system\"}";
    }
  }

  // The members of the test value, each joined into one literal.
  lemma NameTestPiece() ensures "{\"name\":\"test\"" == "{" + Quote("name") + ":" + Quote("test") {}
  lemma RepositoryKeyPiece() ensures ",\"repository\":" == "," + Quote("repository") + ":" {}
  lemma PasswordPassPiece() ensures ",\"password\":\"pass\"}" == "," + Quote("password") + ":" + Quote("pass") + "}" {}
  lemma KindB2Piece() ensures "{\"kind\":\"b2\"" == "{" + Quote("kind") + ":" + Quote("b2") {}
  lemma IdentifierPiece() ensures ",\"identifier\":\"server-test\"" == "," + Quote("identifier") + ":" + Quote("server-test") {}
  lemma PathSystemPiece() ensures ",\"path\":\"/system\"}" == "," + Quote("path") + ":" + Quote("/system") + "}" {}

  /** Replacing the first member's pieces, before any rest, by their joined text. */
  lemma HeadText(key: string, value: string, lit: string, rest: string)
    requires lit == "{" + Quote(key) + ":" + Quote(value)
    ensures lit + rest == "{" + Quote(key) + ":" + Quote(value) + rest
  {
  }

  /** Replacing a member's pieces, after any prefix, by their joined text. */
  lemma MemberText(x: string, key: string, value: string, lit: string)
    requires lit == "," + Quote(key) + ":" + Quote(value)
    ensures x + "," + Quote(key) + ":" + Quote(value) == x + lit
  {
  }

  /** The same for the last member and the closing brace. */
  lemma LastText(x: string, key: string, value: string, lit: string)
    requires lit == "," + Quote(key) + ":" + Quote(value) + "}"
    ensures x + "," + Quote(key) + ":" + Quote(value) + "}" == x + lit
  {
  }

  lemma KeyText(x: string, key: string, lit: string)
    requires lit == "," + Quote(key) + ":"
    ensures x + "," + Quote(key) + ":" == x + lit
  {
  }

  // ---------------------------------------------------------------------
  // Reading back

  predicate EscapeFreeRepository(r: Repository) {
    EscapeFree(r.identifier) && EscapeFree(r.path)
  }

  predicate EscapeFreeBackup(b: Backup) {
    EscapeFree(b.name) && EscapeFreeRepository(b.repository) && EscapeFree(b.password)
  }

  /** Reading a Repository's layout back: it succeeds exactly when the kind
      text is one of the three lowercase names, and yields the fields
      written; any other kind text is refused as an unknown variant. */
  lemma DecodeRepositoryLayout(kindText: string, identifier: string, path: string)
    requires EscapeFree(kindText) && EscapeFree(identifier) && EscapeFree(path)
    ensures DecodeRepositoryText(RepositoryText(kindText, identifier, path)) ==
      if kindText in KindNames then Success(Repository(KindFromName(kindText).value, identifier, path))
      else Failure(UnknownVariant(kindText))
  {
    var text := RepositoryText(kindText, identifier, path);
    var v := RepositoryObject(Str(kindText), identifier, path);
    assert Parse(text) == Success(v) by {
      PrintRepositoryObject(kindText, identifier, path);
      assert Printable(v) by { PrintableRepositoryObject(kindText, identifier, path); }
      Json.RoundTrip(v);
    }
    assert DecodeRepositoryText(text) == DecodeRepository(v);
    DecodeRepositoryObject(kindText, identifier, path);
  }

  lemma PrintableRepositoryObject(kindText: string, identifier: string, path: string)
    requires EscapeFree(kindText) && EscapeFree(identifier) && EscapeFree(path)
    ensures Printable(RepositoryObject(Str(kindText), identifier, path))
  {
    FieldNameEscapeFree("kind");
    FieldNameEscapeFree("identifier");
    FieldNameEscapeFree("path");
    PrintableThree(Member("kind", Str(kindText)), Member("identifier", Str(identifier)), Member("path", Str(path)));
  }

  lemma PrintableBackupObject(name: string, repository: Value, password: string)
    requires EscapeFree(name) && Printable(repository) && EscapeFree(password)
    ensures Printable(BackupObject(name, repository, password))
  {
    FieldNameEscapeFree("name");
    FieldNameEscapeFree("repository");
    FieldNameEscapeFree("password");
    PrintableThree(Member("name", Str(name)), Member("repository", repository), Member("password", Str(password)));
  }

  /** The six field names are written without escapes. */
  lemma FieldNameEscapeFree(f: string)
    requires f == "kind" || f == "identifier" || f == "path" || f == "name" || f == "repository" || f == "password"
    ensures EscapeFree(f)
  {
    if f == "kind" { CharsEscapeFree("kind"); }
    else if f == "identifier" { CharsEscapeFree("identifier"); }
    else if f == "path" { CharsEscapeFree("path"); }
    else if f == "name" { CharsEscapeFree("name"); }
    else if f == "repository" { CharsEscapeFree("repository"); }
    else { CharsEscapeFree("password"); }
  }

  lemma PrintableThree(a: Member, b: Member, c: Member)
    requires EscapeFree(a.key) && Printable(a.value)
    requires EscapeFree(b.key) && Printable(b.value)
    requires EscapeFree(c.key) && Printable(c.value)
    ensures Printable(Obj([a, b, c]))
  {
  }

  lemma DecodeRepositoryObject(kindText: string, identifier: string, path: string)
    ensures DecodeRepository(RepositoryObject(Str(kindText), identifier, path)) ==
      if kindText in KindNames then Success(Repository(KindFromName(kindText).value, identifier, path))
      else Failure(UnknownVariant(kindText))
  {
    CollectThree(Member("kind", Str(kindText)), Member("identifier", Str(identifier)), Member("path", Str(path)), RepositoryFields);
  }

  lemma DecodeBackupObject(name: string, repository: Value, password: string)
    ensures DecodeBackup(BackupObject(name, repository, password)) ==
      match DecodeRepository(repository)
      case Success(r) => Success(Backup(name, r, password))
      case Failure(e) => Failure(e)
  {
    CollectThree(Member("name", Str(name)), Member("repository", repository), Member("password", Str(password)), BackupFields);
  }

  /** Three members with distinct keys, all of them fields, are all kept. */
  lemma CollectThree(a: Member, b: Member, c: Member, fields: set<string>)
    requires a.key in fields && b.key in fields && c.key in fields
    requires a.key != b.key && a.key != c.key && b.key != c.key
    ensures Collect([a, b, c], fields, map[]) == Success(map[a.key := a.value, b.key := b.value, c.key := c.value])
  {
    var m1 := map[a.key := a.value];
    var m2 := m1[b.key := b.value];
    assert [a, b, c][1..] == [b, c] && [b, c][1..] == [c] && [c][1..] == [];
    assert Collect([c], fields, m2) == Success(m2[c.key := c.value]);
    assert Collect([b, c], fields, m1) == Collect([c], fields, m2);
  }

  /** Reading a Backup's layout back, as for the repository: only the kind
      text can make it fail. */
  lemma DecodeLayout(name: string, kindText: string, identifier: string, path: string, password: string)
    requires EscapeFree(name) && EscapeFree(kindText) && EscapeFree(identifier) && EscapeFree(path) && EscapeFree(password)
    ensures Decode(BackupText(name, kindText, identifier, path, password)) ==
      if kindText in KindNames then Success(Backup(name, Repository(KindFromName(kindText).value, identifier, path), password))
      else Failure(UnknownVariant(kindText))
  {
    var text := BackupText(name, kindText, identifier, path, password);
    var repository := RepositoryObject(Str(kindText), identifier, path);
    var v := BackupObject(name, repository, password);
    assert Parse(text) == Success(v) by {
      PrintBackupObject(name, kindText, identifier, path, password);
      PrintableRepositoryObject(kindText, identifier, path);
      PrintableBackupObject(name, repository, password);
      Json.RoundTrip(v);
    }
    assert Decode(text) == DecodeBackup(v);
    DecodeRepositoryObject(kindText, identifier, path);
    DecodeBackupObject(name, repository, password);
  }

  /** Serialize and Deserialize are derived as a pair: reading back what was
      written gives the original repository. */
  lemma RepositoryRoundTrip(r: Repository)
    requires EscapeFreeRepository(r)
    ensures DecodeRepositoryText(EncodeRepository(r)) == Success(r)
  {
    EncodeRepositoryLayout(r);
    DecodeRepositoryLayout(KindName(r.kind), r.identifier, r.path);
    KindNameInverse(r.kind, r.kind);
  }

  /** Reading back what was written gives the original backup. */
  lemma RoundTrip(b: Backup)
    requires EscapeFreeBackup(b)
    ensures Decode(Encode(b)) == Success(b)
  {
    var r := b.repository;
    EncodeLayout(b);
    DecodeLayout(b.name, KindName(r.kind), r.identifier, r.path, b.password);
    KindNameInverse(r.kind, r.kind);
  }

  /** A kind written in any other way than the three lowercase names (for
      instance "B2" or "Local") makes the whole backup unreadable. */
  lemma UnknownKindRejected(name: string, kindText: string, identifier: string, path: string, password: string)
    requires EscapeFree(name) && EscapeFree(kindText) && EscapeFree(identifier) && EscapeFree(path) && EscapeFree(password)
    requires kindText !in KindNames
    ensures Decode(BackupText(name, kindText, identifier, path, password)) == Failure(UnknownVariant(kindText))
  {
    DecodeLayout(name, kindText, identifier, path, password);
  }
}
