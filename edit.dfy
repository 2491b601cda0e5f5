/**
 * The create-backup window of the duplikat client (duplikat/src/edit.rs),
 * with its GTK widgets reduced to the state the window's code reads and
 * writes: which page of the stack is showing, the sensitivity and visibility
 * of the header-bar buttons, the texts of the form's entries, the entries
 * listing the folders to include and the patterns to exclude, and what the
 * repository kind makes visible.
 *
 * The window is a three-page wizard (repository details, folders to include,
 * patterns to exclude) driven by Back and Forward; Add Backup on the last
 * page sends the backup assembled from the form to the daemon.
 */
module Edit {
  import opened Wrappers
  import opened DuplikatTypes
  import opened RustStr

  // ---------------------------------------------------------------------
  // Pages and navigation

  /** The stack's pages, named "repository", "include" and "exclude". */
  datatype Page = RepositoryPage | IncludePage | ExcludePage

  datatype Direction = Back | Forward

  /** What `go` reads and writes: the visible page, Back's sensitivity and the
      visibility of Forward and Add Backup. */
  datatype Nav = Nav(page: Page, backSensitive: bool, forwardVisible: bool, addVisible: bool)

  /** A move that `go` handles; the other two are `unreachable!()`. */
  predicate CanGo(p: Page, d: Direction) {
    !(d == Back && p == RepositoryPage) && !(d == Forward && p == ExcludePage)
  }

  /** The buttons agree with the page: Back is sensitive except on the first
      page, Forward is shown except on the last, Add Backup only on the last. */
  predicate NavInvariant(n: Nav) {
    && n.backSensitive == (n.page != RepositoryPage)
    && n.forwardVisible == (n.page != ExcludePage)
    && n.addVisible == (n.page == ExcludePage)
  }

  /** The flags the window starts with: the first page, Back insensitive,
      Forward shown, Add Backup hidden. */
  const InitialNav: Nav := Nav(RepositoryPage, false, true, false)

  /** One call of `go`. */
  function Step(n: Nav, d: Direction): (r: Nav)
    requires CanGo(n.page, d)
    ensures NavInvariant(n) ==> NavInvariant(r)
    ensures d == Forward ==> r.page == (if n.page == RepositoryPage then IncludePage else ExcludePage)
    ensures d == Back ==> r.page == (if n.page == ExcludePage then IncludePage else RepositoryPage)
  {
    match d
    case Back =>
      if n.page == IncludePage then n.(page := RepositoryPage, backSensitive := false)
      else n.(page := IncludePage, forwardVisible := true, addVisible := false)
    case Forward =>
      if n.page == RepositoryPage then n.(page := IncludePage, backSensitive := true)
      else n.(page := ExcludePage, forwardVisible := false, addVisible := true)
  }

  /** Going forward and then back restores the page and all three flags. */
  lemma ForwardThenBack(n: Nav)
    requires NavInvariant(n) && CanGo(n.page, Forward)
    ensures CanGo(Step(n, Forward).page, Back) && Step(Step(n, Forward), Back) == n
  {
  }

  /** Going back and then forward restores them as well. */
  lemma BackThenForward(n: Nav)
    requires NavInvariant(n) && CanGo(n.page, Back)
    ensures CanGo(Step(n, Back).page, Forward) && Step(Step(n, Back), Forward) == n
  {
  }

  /** While the flags agree with the page, a button can be clicked exactly
      when `go` handles the move: the `unreachable!()` arms are unreachable
      from the buttons. */
  lemma ButtonsMatchMoves(n: Nav)
    requires NavInvariant(n)
    ensures n.backSensitive <==> CanGo(n.page, Back)
    ensures n.forwardVisible <==> CanGo(n.page, Forward)
  {
  }

  /** A click on Back or Forward, with Forward's sensitivity at that moment:
      typing in the form between clicks can change it, and nothing else that
      a click depends on. */
  datatype Press = Press(button: Direction, forwardSensitive: bool)

  /** A button that can be clicked: an insensitive or hidden one emits no
      `clicked`. Back is never hidden; Forward must be shown and sensitive. */
  predicate Clickable(n: Nav, p: Press) {
    if p.button == Back then n.backSensitive else n.forwardVisible && p.forwardSensitive
  }

  /** The flags after a series of clicks on Back and Forward, clicks on a
      button that cannot be clicked doing nothing. */
  function Clicks(n: Nav, ps: seq<Press>): (r: Nav)
    requires NavInvariant(n)
    ensures NavInvariant(r)
    decreases |ps|
  {
    if ps == [] then n
    else
      var next := if Clickable(n, ps[0]) then Step(n, ps[0].button) else n;
      Clicks(next, ps[1..])
  }

  /** From the initial flags, any series of clicks keeps the flags in
      agreement with the page and reaches each page in exactly one way. */
  lemma {:induction false} ClicksFromStart(ps: seq<Press>)
    ensures NavInvariant(Clicks(InitialNav, ps))
    ensures Clicks(InitialNav, ps) == NavAt(Clicks(InitialNav, ps).page)
  {
    NavAtUnique(Clicks(InitialNav, ps));
  }

  /** While Forward is insensitive, as it is until the form first passes
      validation, no click leaves the first page. */
  lemma {:induction false} StuckUntilValid(ps: seq<Press>)
    requires forall i :: 0 <= i < |ps| ==> !ps[i].forwardSensitive
    ensures Clicks(InitialNav, ps) == InitialNav
  {
    if ps != [] {
      assert !Clickable(InitialNav, ps[0]);
      StuckUntilValid(ps[1..]);
    }
  }

  /** A click on a sensitive Forward moves one page on; on the last page,
      where Forward is hidden, it does nothing. */
  lemma ForwardClicks(n: Nav)
    requires NavInvariant(n)
    ensures Clicks(n, [Press(Forward, true)]).page ==
      (if n.page == RepositoryPage then IncludePage else ExcludePage)
  {
    assert [Press(Forward, true)][1..] == [];
  }

  /** The one flag setting that agrees with page `p`. */
  function NavAt(p: Page): (r: Nav)
    ensures r.page == p && NavInvariant(r)
  {
    Nav(p, p != RepositoryPage, p != ExcludePage, p == ExcludePage)
  }

  lemma NavAtUnique(n: Nav)
    ensures NavInvariant(n) <==> n == NavAt(n.page)
  {
  }

  // ---------------------------------------------------------------------
  // Validation

  /** What `update_state` requires before Forward and Add Backup are made
      sensitive: a name that is not blank once trimmed, and a non-empty
      password typed the same way twice. */
  predicate CanSubmit(name: string, password: string, confirm: string) {
    Trim(name) != "" && password != "" && password == confirm
  }

  /** The same condition without trimming: the name must hold a character
      that is not white space. */
  lemma CanSubmitMeaning(name: string, password: string, confirm: string)
    ensures CanSubmit(name, password, confirm) <==>
      (exists i :: 0 <= i < |name| && !IsWhitespace(name[i])) && password != "" && password == confirm
  {
    TrimEmpty(name);
  }

  // ---------------------------------------------------------------------
  // What the kind makes visible

  /** The identifier row, the key row and the secret row: whether each is
      shown (label and entry together), the identifier's label and the
      placeholders. An empty text stands for one never set. */
  datatype KindLayout = KindLayout(
    identifierShown: bool, identifierLabel: string, identifierPlaceholder: string,
    keyShown: bool, keyPlaceholder: string,
    secretShown: bool, secretPlaceholder: string)

  /** All three rows hidden, nothing set: the window as built. */
  const InitialLayout: KindLayout := KindLayout(false, "", "", false, "", false, "")

  /** The combo box's `changed` handler: the identifier row is shown and the
      key and secret rows hidden, and then the kind adjusts them. Texts the
      handler does not set keep their previous values. */
  function ApplyKind(k: RepositoryKind, prev: KindLayout): (r: KindLayout)
    ensures r.identifierShown <==> k != Local
    ensures r.keyShown <==> k == B2
    ensures r.secretShown <==> k == B2
    ensures k == SFTP ==> r.identifierLabel == "Host" && r.identifierPlaceholder == "[user@]host-or-ip.com"
    ensures k == B2 ==> r.identifierLabel == "Bucket" && r.identifierPlaceholder == "bucket-name"
    ensures k == B2 ==> r.keyPlaceholder == "key-id" && r.secretPlaceholder == "secret-id"
    ensures k == Local ==> r.identifierLabel == prev.identifierLabel && r.identifierPlaceholder == prev.identifierPlaceholder
    ensures k != B2 ==> r.keyPlaceholder == prev.keyPlaceholder && r.secretPlaceholder == prev.secretPlaceholder
  {
    var shown := prev.(identifierShown := true, keyShown := false, secretShown := false);
    match k
    case Local => shown.(identifierShown := false)
    case B2 =>
      shown.(identifierLabel := "Bucket", identifierPlaceholder := "bucket-name",
             keyShown := true, keyPlaceholder := "key-id",
             secretShown := true, secretPlaceholder := "secret-id")
    case SFTP => shown.(identifierLabel := "Host", identifierPlaceholder := "[user@]host-or-ip.com")
  }

  /** What is shown suits the kind. */
  predicate LayoutFits(k: RepositoryKind, l: KindLayout) {
    && l.identifierShown == (k != Local)
    && l.keyShown == (k == B2)
    && l.secretShown == (k == B2)
  }

  /** Running the handler again for the same kind changes nothing, so it does
      not matter that the combo box only signals a change of kind. */
  lemma ApplyKindIdempotent(k: RepositoryKind, l: KindLayout)
    ensures ApplyKind(k, ApplyKind(k, l)) == ApplyKind(k, l)
  {
  }

  /** The last kind chosen decides what is shown, whatever came before. */
  lemma LastKindDecides(k: RepositoryKind, l: KindLayout)
    ensures LayoutFits(k, ApplyKind(k, l))
    ensures k != Local ==> ApplyKind(k, l).identifierLabel == ApplyKind(k, InitialLayout).identifierLabel
  {
  }

  /** The window as built shows what the initially active kind, Local, calls for. */
  lemma InitialLayoutFits()
    ensures ApplyKind(Local, InitialLayout) == InitialLayout
  {
  }

  // ---------------------------------------------------------------------
  // The backup the form describes

  /** The texts of the form, as the Add Backup handler reads them. */
  datatype Form = Form(
    name: string, kind: RepositoryKind, identifier: string, keyId: string, keySecret: string,
    path: string, password: string, confirm: string, includes: seq<string>, excludes: seq<string>)

  /** The client's `Backup` message as the Add Backup handler builds it; the
      repository is kept as the string handed to `Repository::from`. */
  datatype AssembledBackup = AssembledBackup(
    name: string, repository: string, password: string,
    keyId: Option<string>, keySecret: Option<string>,
    includes: seq<string>, excludes: seq<string>)

  /** `format!("{}:{}:{}", repo_type, identifier, path)`, the kind written as
      its combo-box id. */
  function RepositoryString(k: RepositoryKind, identifier: string, path: string): string {
    KindName(k) + ":" + identifier + ":" + path
  }

  /** The Add Backup handler's assembly, before the message is sent. */
  function AssembleBackup(f: Form): AssembledBackup {
    AssembledBackup(
      f.name, RepositoryString(f.kind, f.identifier, f.path), f.password,
      if f.kind == B2 then Some(f.keyId) else None,
      if f.kind == B2 then Some(f.keySecret) else None,
      f.includes, f.excludes)
  }

  /** The position of the first colon, or the length when there is none. */
  function ColonIndex(s: string): (r: nat)
    ensures r <= |s| && ':' !in s[..r]
    ensures r < |s| ==> s[r] == ':'
  {
    if s == [] || s[0] == ':' then 0
    else
      assert s[..1 + ColonIndex(s[1..])] == [s[0]] + s[1..][..ColonIndex(s[1..])];
      1 + ColonIndex(s[1..])
  }

  /** The text up to the first colon. */
  function FirstField(s: string): string {
    s[..ColonIndex(s)]
  }

  /** The text after the first colon. */
  function AfterFirst(s: string): string {
    if ColonIndex(s) < |s| then s[ColonIndex(s) + 1..] else []
  }

  lemma {:induction false} ColonAfter(a: string, b: string)
    requires ':' !in a
    ensures ColonIndex(a + ":" + b) == |a|
  {
    if a != [] {
      assert (a + ":" + b)[1..] == a[1..] + ":" + b;
      ColonAfter(a[1..], b);
    }
  }

  lemma SplitAtColon(a: string, b: string)
    requires ':' !in a
    ensures FirstField(a + ":" + b) == a && AfterFirst(a + ":" + b) == b
  {
    ColonAfter(a, b);
    assert (a + ":" + b)[..|a|] == a;
    assert (a + ":" + b)[|a| + 1..] == b;
  }

  /** The repository string starts with the kind's name, up to the first colon:
      it names the kind that decides whether the key and secret are sent. */
  lemma RepositoryStringKind(k: RepositoryKind, identifier: string, path: string)
    ensures FirstField(RepositoryString(k, identifier, path)) == KindName(k)
    ensures KindFromName(FirstField(RepositoryString(k, identifier, path))) == Some(k)
  {
    assert RepositoryString(k, identifier, path) == KindName(k) + ":" + (identifier + ":" + path);
    SplitAtColon(KindName(k), identifier + ":" + path);
    KindNameInverse(k, k);
  }

  /** With identifiers free of colons, different repositories give different
      strings. */
  lemma RepositoryStringInjective(k: RepositoryKind, identifier: string, path: string,
                                  k': RepositoryKind, identifier': string, path': string)
    requires ':' !in identifier && ':' !in identifier'
    ensures RepositoryString(k, identifier, path) == RepositoryString(k', identifier', path') <==>
      k == k' && identifier == identifier' && path == path'
  {
    var s, s' := RepositoryString(k, identifier, path), RepositoryString(k', identifier', path');
    assert s == KindName(k) + ":" + (identifier + ":" + path);
    assert s' == KindName(k') + ":" + (identifier' + ":" + path');
    if s == s' {
      SplitAtColon(KindName(k), identifier + ":" + path);
      SplitAtColon(KindName(k'), identifier' + ":" + path');
      KindNameInverse(k, k');
      SplitAtColon(identifier, path);
      SplitAtColon(identifier', path');
    }
  }

  /** A colon in the identifier makes the string ambiguous: these two SFTP
      repositories give the same string. */
  lemma ColonInIdentifierAmbiguous()
    ensures RepositoryString(SFTP, "host:22", "backups") == RepositoryString(SFTP, "host", "22:backups")
  {
    assert RepositoryString(SFTP, "host:22", "backups") == "sftp:host:22:backups";
    assert RepositoryString(SFTP, "host", "22:backups") == "sftp:host:22:backups";
  }

  /** The key and the secret are sent exactly for B2 repositories, as typed;
      the name, password and lists pass through unchanged and in order. */
  lemma AssembleBackupFields(f: Form)
    ensures AssembleBackup(f).keyId.Some? <==> f.kind == B2
    ensures AssembleBackup(f).keySecret.Some? <==> f.kind == B2
    ensures f.kind == B2 ==> AssembleBackup(f).keyId == Some(f.keyId) && AssembleBackup(f).keySecret == Some(f.keySecret)
    ensures AssembleBackup(f).name == f.name && AssembleBackup(f).password == f.password
    ensures AssembleBackup(f).includes == f.includes && AssembleBackup(f).excludes == f.excludes
    ensures FirstField(AssembleBackup(f).repository) == KindName(f.kind)
  {
    RepositoryStringKind(f.kind, f.identifier, f.path);
  }

  /** The key and the secret are sent exactly when their rows are visible. */
  lemma CredentialsSentWhenShown(f: Form, l: KindLayout)
    requires LayoutFits(f.kind, l)
    ensures AssembleBackup(f).keyId.Some? <==> l.keyShown
    ensures AssembleBackup(f).keySecret.Some? <==> l.secretShown
  {
  }

  /** `n` empty texts. */
  function Blanks(n: nat): (r: seq<string>)
    ensures |r| == n && forall i :: 0 <= i < n ==> r[i] == ""
  {
    seq(n, _ => "")
  }

  /** The form after `clear`: every text entry emptied, including the entries
      of the includes list, which stays as long as it was; the kind and the
      excludes list are not touched. */
  function Cleared(f: Form): (r: Form)
    ensures r.kind == f.kind && r.excludes == f.excludes && |r.includes| == |f.includes|
    ensures forall i :: 0 <= i < |r.includes| ==> r.includes[i] == ""
    ensures r.name == "" && r.identifier == "" && r.keyId == "" && r.keySecret == ""
    ensures r.path == "" && r.password == "" && r.confirm == ""
  {
    f.(name := "", identifier := "", keyId := "", keySecret := "", path := "",
       password := "", confirm := "", includes := Blanks(|f.includes|))
  }

  /** A cleared form cannot be submitted, and clearing again changes nothing. */
  lemma ClearedForm(f: Form)
    ensures !CanSubmit(Cleared(f).name, Cleared(f).password, Cleared(f).confirm)
    ensures Cleared(Cleared(f)) == Cleared(f)
  {
  }

  // ---------------------------------------------------------------------
  // The list bookkeeping

  /** `Vec::retain(|x| x != &entry)`: the elements other than `x`, in order. */
  function Retain<T(==)>(s: seq<T>, x: T): seq<T> {
    if s == [] then []
    else Retain(s[..|s| - 1], x) + (if s[|s| - 1] == x then [] else [s[|s| - 1]])
  }

  predicate Distinct<T(==)>(s: seq<T>) {
    forall i, j :: 0 <= i < j < |s| ==> s[i] != s[j]
  }

  predicate Disjoint<T(==)>(a: seq<T>, b: seq<T>) {
    forall x :: x in a ==> x !in b
  }

  /** Exactly the elements other than `x` remain. */
  lemma {:induction false} RetainMembers<T>(s: seq<T>, x: T)
    ensures forall y :: y in Retain(s, x) <==> y in s && y != x
  {
    if s != [] {
      RetainMembers(s[..|s| - 1], x);
      assert s == s[..|s| - 1] + [s[|s| - 1]];
    }
  }

  /** When `x` is absent nothing changes; when it occurs once, at `k`, the
      rest keep their order around the gap. */
  lemma {:induction false} RetainAbsent<T>(s: seq<T>, x: T)
    requires x !in s
    ensures Retain(s, x) == s
  {
    if s != [] {
      RetainAbsent(s[..|s| - 1], x);
      assert s == s[..|s| - 1] + [s[|s| - 1]];
    }
  }

  lemma {:induction false} RetainOnce<T>(s: seq<T>, x: T, k: nat)
    requires Distinct(s) && k < |s| && s[k] == x
    ensures Retain(s, x) == s[..k] + s[k + 1..]
  {
    var last := |s| - 1;
    if k == last {
      assert x !in s[..last];
      RetainAbsent(s[..last], x);
    } else {
      RetainOnce(s[..last], x, k);
      assert s[..last][..k] == s[..k];
      assert s[k + 1..] == s[..last][k + 1..] + [s[last]];
    }
  }

  /** Lists keep no common element when elements are only dropped. */
  lemma DisjointKept<T>(a: seq<T>, b: seq<T>, a': seq<T>, b': seq<T>)
    requires Disjoint(a, b)
    requires forall y :: y in a' ==> y in a
    requires forall y :: y in b' ==> y in b
    ensures Disjoint(a', b')
  {
  }

  lemma RetainDistinct<T>(s: seq<T>, x: T)
    requires Distinct(s)
    ensures Distinct(Retain(s, x))
  {
    if k :| 0 <= k < |s| && s[k] == x {
      RetainOnce(s, x, k);
      assert Retain(s, x) == s[..k] + s[k + 1..];
    } else {
      RetainAbsent(s, x);
    }
  }

  // ---------------------------------------------------------------------
  // Grid rows

  newtype i32 = x: int | -0x8000_0000 <= x < 0x8000_0000

  /** `next_row_num`: increments the counter and returns its new value. An
      increment past the largest i32 would panic in a debug build. */
  method NextRowNum(num: i32) returns (updated: i32, r: i32)
    requires num < 0x7FFF_FFFF
    ensures updated == num + 1 && r == updated
  {
    updated := num + 1;
    r := updated;
  }

  /** The (column, row) at which the eight labels of the repository page are
      attached, the counter starting at -1. The name label takes the
      counter's first value as its column, which is 0, so every label lands in
      column 0, on its own row, in the order the page lists them. */
  method RepositoryGridCells() returns (cells: seq<(i32, i32)>)
    ensures cells == [(0, 0), (0, 1), (0, 2), (0, 3), (0, 4), (0, 5), (0, 6), (0, 7)]
  {
    var rowNum: i32 := -1;
    var n: i32;
    rowNum, n := NextRowNum(rowNum);
    cells := [(n, 0)];              // Name
    rowNum, n := NextRowNum(rowNum);
    cells := cells + [(0, n)];      // Type
    rowNum, n := NextRowNum(rowNum);
    cells := cells + [(0, n)];      // identifier
    rowNum, n := NextRowNum(rowNum);
    cells := cells + [(0, n)];      // Key ID
    rowNum, n := NextRowNum(rowNum);
    cells := cells + [(0, n)];      // Secret ID
    rowNum, n := NextRowNum(rowNum);
    cells := cells + [(0, n)];      // Path
    rowNum, n := NextRowNum(rowNum);
    cells := cells + [(0, n)];      // Password
    rowNum, n := NextRowNum(rowNum);
    cells := cells + [(0, n)];      // Confirm Password
  }

  // ---------------------------------------------------------------------
  // The window

  /** A text entry of the include or exclude list, compared by identity as
      GTK objects are. */
  class Entry {
    var text: string

    constructor (initial: string)
      ensures text == initial
    {
      text := initial;
    }

    /** `set_text`. */
    method SetText(t: string)
      modifies this
      ensures text == t
    {
      text := t;
    }
  }

  /** The texts of a list of entries, in order. */
  function Texts(es: seq<Entry>): (r: seq<string>)
    reads es
    ensures |r| == |es|
  {
    if es == [] then [] else [es[0].text] + Texts(es[1..])
  }

  /** Position `i` of `Texts(es)` is the text of entry `i`. */
  lemma {:induction false} TextsElements(es: seq<Entry>)
    ensures forall i :: 0 <= i < |es| ==> Texts(es)[i] == es[i].text
  {
    if es != [] {
      TextsElements(es[1..]);
    }
  }

  /** A list of texts that agrees with the entries position by position is their `Texts`. */
  lemma TextsOf(es: seq<Entry>, r: seq<string>)
    requires |r| == |es| && forall i :: 0 <= i < |es| ==> r[i] == es[i].text
    ensures Texts(es) == r
  {
    TextsElements(es);
  }

  /** An entry added at the end adds its text at the end. */
  lemma TextsAppend(es: seq<Entry>, e: Entry)
    ensures Texts(es + [e]) == Texts(es) + [e.text]
  {
    TextsElements(es);
    TextsElements(es + [e]);
  }

  /** The window's state besides the form: the navigation flags, Forward's and
      Add Backup's sensitivity, what the kind makes visible, and whether the
      dialog is shown. */
  datatype Controls = Controls(
    nav: Nav, forwardSensitive: bool, addSensitive: bool, layout: KindLayout, windowVisible: bool)

  class CreateEditUI {
    var name: string
    var kind: RepositoryKind
    var identifier: string
    var keyId: string
    var keySecret: string
    var path: string
    var password: string
    var confirm: string
    var includes: seq<Entry>
    var excludes: seq<Entry>
    /** The visible page of the stack, Back's sensitivity and the visibility
        of Forward and Add Backup. */
    var nav: Nav
    var forwardSensitive: bool
    var addSensitive: bool
    var layout: KindLayout
    var windowVisible: bool

    function ControlState(): Controls
      reads this
    {
      Controls(nav, forwardSensitive, addSensitive, layout, windowVisible)
    }

    function Inputs(): Form
      reads this, includes, excludes
    {
      Form(name, kind, identifier, keyId, keySecret, path, password, confirm, Texts(includes), Texts(excludes))
    }

    /** The flags agree with the page and the rows with the kind, and every
        entry is in at most one place of one list. */
    predicate WellFormed()
      reads this
    {
      && NavInvariant(nav)
      && LayoutFits(kind, layout)
      && Distinct(includes) && Distinct(excludes) && Disjoint(includes, excludes)
    }

    /** Besides, Add Backup is sensitive only together with Forward and only
        for a form that passes validation. */
    predicate Valid()
      reads this
    {
      WellFormed() && (addSensitive ==> forwardSensitive && CanSubmit(name, password, confirm))
    }

    /** `CreateEditUI::new`, with the default include path and the default
        excludes patterns, which depend on the user and the platform, given. */
    constructor (defaultInclude: string, defaultExcludes: seq<string>)
      ensures Valid()
      ensures ControlState() == Controls(InitialNav, false, false, InitialLayout, false)
      ensures Inputs() == Form("", Local, "", "", "", "", "", "", [defaultInclude], defaultExcludes)
      ensures forall e :: e in includes || e in excludes ==> fresh(e)
    {
      name, kind, identifier, keyId, keySecret := "", Local, "", "", "";
      path, password, confirm := "", "", "";
      includes, excludes := [], [];
      nav, forwardSensitive, addSensitive := InitialNav, false, false;
      layout, windowVisible := InitialLayout, false;
      new;
      var row := NewIncludeRow(defaultInclude);
      DefaultExcludeRows(defaultExcludes);
    }

    /** The end of `default_exclude_patterns`: one exclude row per pattern,
        in order, each with a new entry. The patterns, which depend on the
        platform and the home directory, are given. */
    method DefaultExcludeRows(patterns: seq<string>)
      requires Valid()
      modifies this
      ensures includes == old(includes)
      ensures forall e :: e in excludes ==> e in old(excludes) || fresh(e)
      ensures ControlState() == old(ControlState())
      ensures Valid() && Inputs() == old(Inputs()).(excludes := old(Inputs()).excludes + patterns)
    {
      ghost var before := Inputs();
      ghost var texts := before.excludes;
      for i := 0 to |patterns|
        invariant texts == before.excludes + patterns[..i]
        invariant |excludes| == |old(excludes)| + i
        invariant Valid() && Inputs() == before.(excludes := texts)
        invariant ControlState() == old(ControlState())
        invariant includes == old(includes)
        invariant forall e :: e in excludes ==> e in old(excludes) || fresh(e)
      {
        assert patterns[..i + 1] == patterns[..i] + [patterns[i]];
        texts := texts + [patterns[i]];
        var entry := NewExcludeRow(patterns[i]);
      }
      assert patterns[..|patterns|] == patterns;
    }

    /** `open`: presents the dialog. */
    method Open()
      requires Valid()
      modifies this
      ensures Valid() && Inputs() == old(Inputs())
      ensures ControlState() == old(ControlState()).(windowVisible := true)
      ensures includes == old(includes) && excludes == old(excludes)
    {
      windowVisible := true;
    }

    /** `go`: moves one page in direction `d`. */
    method Go(d: Direction)
      requires Valid() && CanGo(nav.page, d)
      modifies this
      ensures includes == old(includes) && excludes == old(excludes)
      ensures ControlState() == old(ControlState()).(nav := Step(old(nav), d))
      ensures Valid() && Inputs() == old(Inputs())
    {
      if d == Back {
        if nav.page == IncludePage {
          nav := nav.(page := RepositoryPage, backSensitive := false);
        } else {
          nav := nav.(page := IncludePage, forwardVisible := true, addVisible := false);
        }
      } else {
        if nav.page == RepositoryPage {
          nav := nav.(page := IncludePage, backSensitive := true);
        } else {
          nav := nav.(page := ExcludePage, forwardVisible := false, addVisible := true);
        }
      }
    }

    /** `update_state`: Forward and Add Backup become sensitive exactly when
        the form passes validation; nothing else changes, so a second call
        does nothing. */
    method UpdateState()
      requires WellFormed()
      modifies this
      ensures Valid() && Inputs() == old(Inputs())
      ensures forwardSensitive == CanSubmit(name, password, confirm) && addSensitive == forwardSensitive
      ensures ControlState() == old(ControlState()).(forwardSensitive := forwardSensitive, addSensitive := addSensitive)
      ensures includes == old(includes) && excludes == old(excludes)
      ensures old(forwardSensitive == CanSubmit(name, password, confirm) && addSensitive == forwardSensitive) ==> unchanged(this)
    {
      var sensitive := true;
      if Trim(name) == "" {
        sensitive := false;
      }
      if password == "" || password != confirm {
        sensitive := false;
      }
      forwardSensitive := sensitive;
      addSensitive := sensitive;
    }

    /** Typing in the name entry; its `changed` handler runs `update_state`. */
    method InputName(t: string)
      requires Valid()
      modifies this
      ensures Valid() && Inputs() == old(Inputs()).(name := t)
      ensures forwardSensitive == CanSubmit(t, password, confirm) && addSensitive == forwardSensitive
      ensures ControlState() == old(ControlState()).(forwardSensitive := forwardSensitive, addSensitive := addSensitive)
      ensures includes == old(includes) && excludes == old(excludes)
    {
      name := t;
      UpdateState();
    }

    /** Typing in the path entry, which also runs `update_state`. */
    method InputPath(t: string)
      requires Valid()
      modifies this
      ensures Valid() && Inputs() == old(Inputs()).(path := t)
      ensures forwardSensitive == CanSubmit(name, password, confirm) && addSensitive == forwardSensitive
      ensures ControlState() == old(ControlState()).(forwardSensitive := forwardSensitive, addSensitive := addSensitive)
      ensures includes == old(includes) && excludes == old(excludes)
    {
      path := t;
      UpdateState();
    }

    /** Typing in the password entry, which also runs `update_state`. */
    method InputPassword(t: string)
      requires Valid()
      modifies this
      ensures Valid() && Inputs() == old(Inputs()).(password := t)
      ensures forwardSensitive == CanSubmit(name, t, confirm) && addSensitive == forwardSensitive
      ensures ControlState() == old(ControlState()).(forwardSensitive := forwardSensitive, addSensitive := addSensitive)
      ensures includes == old(includes) && excludes == old(excludes)
    {
      password := t;
      UpdateState();
    }

    /** Typing in the confirmation entry, which also runs `update_state`. */
    method InputConfirm(t: string)
      requires Valid()
      modifies this
      ensures Valid() && Inputs() == old(Inputs()).(confirm := t)
      ensures forwardSensitive == CanSubmit(name, password, t) && addSensitive == forwardSensitive
      ensures ControlState() == old(ControlState()).(forwardSensitive := forwardSensitive, addSensitive := addSensitive)
      ensures includes == old(includes) && excludes == old(excludes)
    {
      confirm := t;
      UpdateState();
    }

    /** Typing in the identifier entry: no handler is attached to it. */
    method InputIdentifier(t: string)
      requires Valid()
      modifies this
      ensures Valid() && Inputs() == old(Inputs()).(identifier := t)
      ensures ControlState() == old(ControlState())
      ensures includes == old(includes) && excludes == old(excludes)
    {
      identifier := t;
    }

    /** Typing in the key entry: no handler is attached to it. */
    method InputKeyId(t: string)
      requires Valid()
      modifies this
      ensures Valid() && Inputs() == old(Inputs()).(keyId := t)
      ensures ControlState() == old(ControlState())
      ensures includes == old(includes) && excludes == old(excludes)
    {
      keyId := t;
    }

    /** Typing in the secret entry: no handler is attached to it. */
    method InputKeySecret(t: string)
      requires Valid()
      modifies this
      ensures Valid() && Inputs() == old(Inputs()).(keySecret := t)
      ensures ControlState() == old(ControlState())
      ensures includes == old(includes) && excludes == old(excludes)
    {
      keySecret := t;
    }

    /** Choosing a kind in the combo box. The `changed` handler runs only when
        the active kind actually changes. */
    method ChangeKind(k: RepositoryKind)
      requires Valid()
      modifies this
      ensures Valid() && Inputs() == old(Inputs()).(kind := k)
      ensures ControlState() == old(ControlState()).(layout := if k == old(kind) then old(layout) else ApplyKind(k, old(layout)))
      ensures includes == old(includes) && excludes == old(excludes)
    {
      if k != kind {
        kind := k;
        layout := ApplyKind(k, layout);
      }
    }

    /** `new_include_row`: a new entry holding the path goes at the end of
        `includes`. */
    method NewIncludeRow(p: string) returns (e: Entry)
      requires Valid()
      modifies this
      ensures Valid() && fresh(e) && e.text == p
      ensures includes == old(includes) + [e] && excludes == old(excludes)
      ensures Inputs() == old(Inputs()).(includes := old(Inputs()).includes + [p])
      ensures ControlState() == old(ControlState())
    {
      e := new Entry(p);
      includes := includes + [e];
      TextsAppend(old(includes), e);
    }

    /** `new_exclude_row`: a new entry holding the pattern goes at the end of
        `excludes`. */
    method NewExcludeRow(initialText: string) returns (e: Entry)
      requires Valid()
      modifies this
      ensures Valid() && fresh(e) && e.text == initialText
      ensures excludes == old(excludes) + [e] && includes == old(includes)
      ensures Inputs() == old(Inputs()).(excludes := old(Inputs()).excludes + [initialText])
      ensures ControlState() == old(ControlState())
    {
      e := new Entry(initialText);
      excludes := excludes + [e];
      TextsAppend(old(excludes), e);
    }

    /** Editing the text of an exclude entry. Include entries are hidden and
        cannot be edited. */
    method InputExclude(i: nat, t: string)
      requires Valid() && i < |excludes|
      modifies excludes[i]
      ensures Valid() && Inputs() == old(Inputs()).(excludes := old(Inputs()).excludes[i := t])
      ensures ControlState() == old(ControlState())
    {
      ghost var before := Inputs();
      TextsElements(excludes);
      assert excludes[i] in excludes;
      excludes[i].SetText(t);
      assert Texts(includes) == before.includes;
      TextsOf(excludes, before.excludes[i := t]);
    }

    /** The remove button of an include row: `retain` drops its entry. */
    method RemoveIncludeRow(e: Entry)
      requires Valid()
      modifies this
      ensures Valid() && includes == Retain(old(includes), e) && excludes == old(excludes)
      ensures Inputs() == old(Inputs()).(includes := Texts(includes))
      ensures ControlState() == old(ControlState())
    {
      var kept := [];
      for i := 0 to |includes|
        invariant kept == Retain(includes[..i], e)
      {
        assert includes[..i + 1][..i] == includes[..i];
        if includes[i] != e {
          kept := kept + [includes[i]];
        }
      }
      assert includes[..|includes|] == includes;
      RetainDistinct(includes, e);
      RetainMembers(includes, e);
      DisjointKept(includes, excludes, kept, excludes);
      includes := kept;
    }

    /** The remove button of an exclude row. */
    method RemoveExcludeRow(e: Entry)
      requires Valid()
      modifies this
      ensures Valid() && excludes == Retain(old(excludes), e) && includes == old(includes)
      ensures Inputs() == old(Inputs()).(excludes := Texts(excludes))
      ensures ControlState() == old(ControlState())
    {
      var kept := [];
      for i := 0 to |excludes|
        invariant kept == Retain(excludes[..i], e)
      {
        assert excludes[..i + 1][..i] == excludes[..i];
        if excludes[i] != e {
          kept := kept + [excludes[i]];
        }
      }
      assert excludes[..|excludes|] == excludes;
      RetainDistinct(excludes, e);
      RetainMembers(excludes, e);
      DisjointKept(includes, excludes, includes, kept);
      excludes := kept;
    }

    /** `clear`, run after the daemon accepted a backup: hides the dialog,
        empties the texts and makes Add Backup insensitive. The entries'
        `changed` handlers find the window borrowed and do not run
        `update_state`, so Forward keeps its sensitivity; the page is kept as
        well. */
    method Clear()
      requires Valid()
      modifies this, includes
      ensures includes == old(includes) && excludes == old(excludes)
      ensures ControlState() == old(ControlState()).(addSensitive := false, windowVisible := false)
      ensures Valid() && Inputs() == Cleared(old(Inputs()))
    {
      ghost var before := Inputs();
      windowVisible := false;
      ClearEntries();
      addSensitive := false;
      assert Texts(includes) == before.includes && Texts(excludes) == before.excludes;
      ClearIncludes();
    }

    /** The `set_text("")` calls on the text entries of the form. */
    method ClearEntries()
      requires WellFormed()
      modifies this
      ensures includes == old(includes) && excludes == old(excludes) && kind == old(kind)
      ensures ControlState() == old(ControlState())
      ensures WellFormed()
      ensures name == "" && identifier == "" && keyId == "" && keySecret == ""
      ensures path == "" && password == "" && confirm == ""
    {
      name, identifier, keyId, keySecret, path, password, confirm := "", "", "", "", "", "", "";
    }

    /** `include_entries.iter_mut().for_each(|entry| entry.set_text(""))`:
        the exclude entries, which are other entries, keep their texts. */
    method ClearIncludes()
      requires WellFormed()
      modifies includes
      ensures unchanged(this) && WellFormed() && ControlState() == old(ControlState())
      ensures Texts(includes) == Blanks(|includes|)
      ensures Texts(excludes) == old(Texts(excludes))
    {
      ghost var others := Texts(excludes);
      TextsElements(excludes);
      for i := 0 to |includes|
        invariant forall j :: 0 <= j < i ==> includes[j].text == ""
        invariant forall j :: 0 <= j < |excludes| ==> excludes[j].text == others[j]
      {
        assert includes[i] in includes;
        includes[i].SetText("");
      }
      TextsOf(includes, Blanks(|includes|));
      TextsOf(excludes, others);
    }
  }
}
