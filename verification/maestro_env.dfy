/** The Maestro fixture file: the validator and printer on the Go side, the line parser of the runner
    script and the quoting of the Makefile on the other. */
module MaestroEnv {

  // ----- Text -----

  /** The complete lines of a text; `read` does not deliver a last line without its newline. */
  function Lines(text: string): seq<string> {
    LinesFrom(text, "")
  }

  function LinesFrom(text: string, sofar: string): seq<string> {
    if text == "" then []
    else if text[0] == '\n' then [sofar] + LinesFrom(text[1..], "")
    else LinesFrom(text[1..], sofar + [text[0]])
  }

  predicate OneLine(s: string) {
    '\n' !in s
  }

  lemma {:induction false} LineIsCutOff(line: string, rest: string, sofar: string)
    requires OneLine(line)
    ensures LinesFrom(line + "\n" + rest, sofar) == [sofar + line] + LinesFrom(rest, "")
    decreases |line|
  {
    var text := line + "\n" + rest;
    if line == "" {
      assert text[0] == '\n' && text[1..] == rest && sofar + line == sofar;
    } else {
      assert text[0] == line[0] && text[1..] == line[1..] + "\n" + rest;
      LineIsCutOff(line[1..], rest, sofar + [line[0]]);
      assert sofar + [line[0]] + line[1..] == sofar + line;
    }
  }

  lemma {:induction false} LinesAreOneLine(text: string, sofar: string, l: string)
    requires OneLine(sofar) && l in LinesFrom(text, sofar)
    ensures OneLine(l)
    decreases |text|
  {
    if text[0] == '\n' {
      if l != sofar { LinesAreOneLine(text[1..], "", l); }
    } else {
      LinesAreOneLine(text[1..], sofar + [text[0]], l);
    }
  }

  // ----- The runner's parser -----

  datatype Pair = Pair(key: string, value: string)

  /** "${line%%=*}" and "${line#*=}". */
  function KeyOf(line: string): string {
    if line == "" || line[0] == '=' then "" else [line[0]] + KeyOf(line[1..])
  }

  function ValueOf(line: string): string
    requires '=' in line
  {
    if line[0] == '=' then line[1..] else ValueOf(line[1..])
  }

  /** Not blank, not a comment, an assignment, and not of an empty value. */
  predicate Kept(line: string) {
    line != "" && line[0] != '#' && '=' in line && ValueOf(line) != ""
  }

  function ParseLines(lines: seq<string>): seq<Pair>
    decreases |lines|
  {
    if lines == [] then [] else
      var line := lines[|lines| - 1];
      ParseLines(lines[..|lines| - 1]) + if Kept(line) then [Pair(KeyOf(line), ValueOf(line))] else []
  }

  function Parse(text: string): seq<Pair> {
    ParseLines(Lines(text))
  }

  lemma {:induction false} ParseJoins(a: seq<string>, b: seq<string>)
    ensures ParseLines(a + b) == ParseLines(a) + ParseLines(b)
    decreases |b|
  {
    if b == [] {
      assert a + b == a;
    } else {
      assert (a + b)[..|a + b| - 1] == a + b[..|b| - 1];
      ParseJoins(a, b[..|b| - 1]);
    }
  }

  lemma {:induction false} SplitAtFirstEquals(key: string, value: string)
    requires '=' !in key
    ensures '=' in key + "=" + value
    ensures KeyOf(key + "=" + value) == key && ValueOf(key + "=" + value) == value
    decreases |key|
  {
    var line := key + "=" + value;
    assert line[|key|] == '=';
    if key == "" {
      assert line[1..] == value;
    } else {
      assert line[0] == key[0] && line[1..] == key[1..] + "=" + value;
      SplitAtFirstEquals(key[1..], value);
    }
  }

  /** Whatever the file holds, no parsed value is empty or contains a newline. */
  lemma {:induction false} ParsedValuesAreClean(lines: seq<string>, p: Pair)
    requires (forall l :: l in lines ==> OneLine(l)) && p in ParseLines(lines)
    ensures Clean(p.value)
    decreases |lines|
  {
    var front, line := lines[..|lines| - 1], lines[|lines| - 1];
    if p in ParseLines(front) {
      ParsedValuesAreClean(front, p);
    } else {
      ValueIsOneLine(line);
    }
  }

  lemma {:induction false} ValueIsOneLine(line: string)
    requires OneLine(line) && '=' in line
    ensures OneLine(ValueOf(line))
  {
    if line[0] != '=' { ValueIsOneLine(line[1..]); }
  }

  /** A value that the file can carry. */
  predicate Clean(value: string) {
    value != "" && OneLine(value)
  }

  // ----- The printed file -----

  datatype Variable =
    | TestSubdomain | TestEmail | TestPassword | TestPin | OwnerPassword | OwnerPin
    | WorkerEmail | WorkerPassword | WorkerLogin | WorkerPin
    | TeamTaskId | SearchWord | SearchDocumentTitle | PersonWithPhone | PersonNoPhone | DirectoryDepartment

  const PREFIX := "MAESTRO_"

  function Suffix(v: Variable): string {
    match v
    case TestSubdomain => "TEST_SUBDOMAIN"
    case TestEmail => "TEST_EMAIL"
    case TestPassword => "TEST_PASSWORD"
    case TestPin => "TEST_PIN"
    case OwnerPassword => "OWNER_PASSWORD"
    case OwnerPin => "OWNER_PIN"
    case WorkerEmail => "WORKER_EMAIL"
    case WorkerPassword => "WORKER_PASSWORD"
    case WorkerLogin => "WORKER_LOGIN"
    case WorkerPin => "WORKER_PIN"
    case TeamTaskId => "TEAM_TASK_ID"
    case SearchWord => "SEARCH_WORD"
    case SearchDocumentTitle => "SEARCH_DOCUMENT_TITLE"
    case PersonWithPhone => "DIRECTORY_PERSON_WITH_PHONE"
    case PersonNoPhone => "DIRECTORY_PERSON_NO_PHONE"
    case DirectoryDepartment => "DIRECTORY_DEPARTMENT"
  }

  function Name(v: Variable): string {
    PREFIX + Suffix(v)
  }

  datatype Assignment = Assignment(name: Variable, value: string)

  datatype Item = Comment(text: string) | Blank | Entry(entry: Assignment)

  function LineFor(i: Item): string {
    match i
    case Comment(text) => "#" + text
    case Blank => ""
    case Entry(a) => Name(a.name) + "=" + a.value
  }

  function Written(items: seq<Item>): seq<string> {
    seq(|items|, i requires 0 <= i < |items| => LineFor(items[i]))
  }

  function Text(lines: seq<string>): string
    decreases |lines|
  {
    if lines == [] then "" else Text(lines[..|lines| - 1]) + lines[|lines| - 1] + "\n"
  }

  function Render(items: seq<Item>): string {
    Text(Written(items))
  }

  function PairOf(a: Assignment): Pair {
    Pair(Name(a.name), a.value)
  }

  function Entries(items: seq<Item>): seq<Pair>
    decreases |items|
  {
    if items == [] then [] else
      var i := items[|items| - 1];
      Entries(items[..|items| - 1]) + if i.Entry? then [PairOf(i.entry)] else []
  }

  predicate PlainName(name: string) {
    name != "" && name[0] != '#' && '=' !in name && '\n' !in name
  }

  /** An item that survives printing and parsing. */
  predicate Carried(i: Item) {
    match i
    case Comment(text) => OneLine(text)
    case Blank => true
    case Entry(a) => Clean(a.value)
  }

  lemma ItemParses(i: Item)
    requires Carried(i)
    ensures OneLine(LineFor(i))
    ensures ParseLines([LineFor(i)]) == if i.Entry? then [PairOf(i.entry)] else []
  {
    assert [LineFor(i)][..0] == [];
    if i.Entry? {
      NamesArePlain(i.entry.name);
      SplitAtFirstEquals(Name(i.entry.name), i.entry.value);
    }
  }

  lemma {:induction false} LinesJoin(text: string, line: string, sofar: string)
    requires OneLine(line) && (text == "" ==> sofar == "") && (text != "" ==> text[|text| - 1] == '\n')
    ensures LinesFrom(text + line + "\n", sofar) == LinesFrom(text, sofar) + [line]
    decreases |text|
  {
    var all := text + line + "\n";
    if text == "" {
      assert all == line + "\n" + "" && "" + line == line;
      LineIsCutOff(line, "", "");
    } else {
      assert all[0] == text[0] && all[1..] == text[1..] + line + "\n";
      if text[0] == '\n' {
        LinesJoin(text[1..], line, "");
      } else {
        LinesJoin(text[1..], line, sofar + [text[0]]);
      }
    }
  }

  lemma TextEnds(lines: seq<string>)
    ensures Text(lines) != "" ==> Text(lines)[|Text(lines)| - 1] == '\n'
  {
  }

  /** Lines written out are the lines read back. */
  lemma {:induction false} LinesComeBack(lines: seq<string>)
    requires forall i :: 0 <= i < |lines| ==> OneLine(lines[i])
    ensures Lines(Text(lines)) == lines
    decreases |lines|
  {
    if lines != [] {
      var front, last := lines[..|lines| - 1], lines[|lines| - 1];
      LinesComeBack(front);
      TextEnds(front);
      LinesJoin(Text(front), last, "");
      assert front + [last] == lines;
    }
  }

  lemma WrittenSplits(items: seq<Item>)
    requires items != []
    ensures Written(items) == Written(items[..|items| - 1]) + [LineFor(items[|items| - 1])]
  {
  }

  lemma {:induction false} WrittenEntries(items: seq<Item>)
    requires forall i :: i in items ==> Carried(i)
    ensures ParseLines(Written(items)) == Entries(items)
    decreases |items|
  {
    if items != [] {
      var front, last := items[..|items| - 1], items[|items| - 1];
      WrittenEntries(front);
      ItemParses(last);
      WrittenSplits(items);
      ParseJoins(Written(front), [LineFor(last)]);
    }
  }

  /** Printing, then parsing, gives back exactly the entries, in order. */
  lemma PrintedEntriesComeBack(items: seq<Item>)
    requires forall i :: i in items ==> Carried(i)
    ensures Parse(Render(items)) == Entries(items)
  {
    forall i | 0 <= i < |items|
      ensures OneLine(Written(items)[i])
    {
      assert items[i] in items;
      ItemParses(items[i]);
    }
    LinesComeBack(Written(items));
    WrittenEntries(items);
  }

  lemma {:induction false} EntriesJoin(a: seq<Item>, b: seq<Item>)
    ensures Entries(a + b) == Entries(a) + Entries(b)
    decreases |b|
  {
    if b == [] {
      assert a + b == a;
    } else {
      assert (a + b)[..|a + b| - 1] == a + b[..|b| - 1];
      EntriesJoin(a, b[..|b| - 1]);
    }
  }

  // ----- The fixture -----

  predicate PlainSuffix(s: string) {
    '=' !in s && '\n' !in s
  }

  lemma AccountSuffixesArePlain(v: Variable)
    requires v.TestSubdomain? || v.TestEmail? || v.TestPassword? || v.TestPin? || v.OwnerPassword? || v.OwnerPin?
    ensures PlainSuffix(Suffix(v))
  {
  }

  lemma WorkerSuffixesArePlain(v: Variable)
    requires v.WorkerEmail? || v.WorkerPassword? || v.WorkerLogin? || v.WorkerPin? || v.TeamTaskId? || v.SearchWord?
    ensures PlainSuffix(Suffix(v))
  {
  }

  lemma DirectorySuffixesArePlain(v: Variable)
    requires v.PersonNoPhone? || v.DirectoryDepartment? || v.SearchDocumentTitle?
    ensures PlainSuffix(Suffix(v))
  {
  }

  lemma LongSuffixIsPlain()
    ensures PlainSuffix(Suffix(PersonWithPhone))
  {
  }

  lemma PrefixedIsPlain(s: string)
    requires PlainSuffix(s)
    ensures PlainName(PREFIX + s)
  {
    assert (PREFIX + s)[0] == 'M';
  }

  lemma NamesArePlain(v: Variable)
    ensures PlainName(Name(v))
  {
    match v {
      case PersonNoPhone | DirectoryDepartment | SearchDocumentTitle => DirectorySuffixesArePlain(v);
      case PersonWithPhone => LongSuffixIsPlain();
      case WorkerEmail | WorkerPassword | WorkerLogin | WorkerPin | TeamTaskId | SearchWord =>
        WorkerSuffixesArePlain(v);
      case _ => AccountSuffixesArePlain(v);
    }
    PrefixedIsPlain(Suffix(v));
  }

  /** The fixture; `teamTask` is a UUID's text, and `comments` the wording of the comment lines. */
  datatype Fixture = Fixture(
    subdomain: string, ownerEmail: string, ownerPassword: string, ownerPin: string,
    signupPassword: string, signupPin: string,
    workerEmail: string, workerPassword: string, workerLogin: string, workerPin: string,
    teamTask: string, content: Content, comments: Comments)

  /** The constants of the seeded content. */
  datatype Content = Content(searchWord: string, documentTitle: string, withPhone: string,
    noPhone: string, department: string)

  /** The header's three lines (with the formatted time and the %q form of the subdomain), the two lines
      above the signup block, the three above the worker block, and the pieces of the fourth, which
      repeats the worker's address and password. */
  datatype Comments = Comments(header: seq<string>, signup: seq<string>, worker: seq<string>,
    hint: string, between: string, close: string)

  function TestAccount(f: Fixture): seq<Assignment> {
    [Assignment(TestSubdomain, f.subdomain), Assignment(TestEmail, f.ownerEmail),
     Assignment(TestPassword, f.ownerPassword), Assignment(TestPin, f.ownerPin)]
  }

  function Signup(f: Fixture): seq<Assignment> {
    [Assignment(OwnerPassword, f.signupPassword), Assignment(OwnerPin, f.signupPin)]
  }

  function Worker(f: Fixture): seq<Assignment> {
    [Assignment(WorkerEmail, f.workerEmail), Assignment(WorkerPassword, f.workerPassword),
     Assignment(WorkerLogin, f.workerLogin), Assignment(WorkerPin, f.workerPin)]
  }

  function Seeded(f: Fixture): seq<Assignment> {
    [Assignment(TeamTaskId, f.teamTask), Assignment(SearchWord, f.content.searchWord),
     Assignment(SearchDocumentTitle, f.content.documentTitle), Assignment(PersonWithPhone, f.content.withPhone),
     Assignment(PersonNoPhone, f.content.noPhone), Assignment(DirectoryDepartment, f.content.department)]
  }

  /** What validateMaestroValues looks at. */
  function CheckedValues(f: Fixture): seq<Assignment> {
    TestAccount(f) + Signup(f) + Worker(f)
  }

  function CommentItems(texts: seq<string>): seq<Item> {
    seq(|texts|, i requires 0 <= i < |texts| => Comment(texts[i]))
  }

  function EntryItems(block: seq<Assignment>): seq<Item> {
    seq(|block|, i requires 0 <= i < |block| => Entry(block[i]))
  }

  function Pairs(block: seq<Assignment>): seq<Pair> {
    seq(|block|, i requires 0 <= i < |block| => PairOf(block[i]))
  }

  function Hint(f: Fixture): string {
    f.comments.hint + f.workerEmail + f.comments.between + f.workerPassword + f.comments.close
  }

  /** A block of the file: comment lines, assignments, and a blank line. */
  function Block(comments: seq<string>, block: seq<Assignment>): seq<Item> {
    CommentItems(comments) + EntryItems(block) + [Blank]
  }

  function Layout(f: Fixture): seq<Item> {
    Block(f.comments.header, []) + Block([], TestAccount(f)) + Block(f.comments.signup, Signup(f))
    + Block(f.comments.worker + [Hint(f)], Worker(f)) + EntryItems(Seeded(f))
  }

  /** The variables the fixture means the flows to have. */
  function Intended(f: Fixture): seq<Pair> {
    Pairs(CheckedValues(f)) + Pairs(Seeded(f))
  }

  ghost predicate AllClean(block: seq<Assignment>) {
    forall i :: 0 <= i < |block| ==> Clean(block[i].value)
  }

  ghost predicate AllOneLine(texts: seq<string>) {
    forall i :: 0 <= i < |texts| ==> OneLine(texts[i])
  }

  /** What the constants and the formatting library guarantee. */
  ghost predicate WellFormed(f: Fixture) {
    && AllOneLine(f.comments.header) && AllOneLine(f.comments.signup) && AllOneLine(f.comments.worker)
    && OneLine(f.comments.hint) && OneLine(f.comments.between) && OneLine(f.comments.close)
    && AllClean(Seeded(f))
  }

  ghost predicate AllCarried(items: seq<Item>) {
    forall i :: i in items ==> Carried(i)
  }

  lemma {:induction false} CommentsHaveNoEntries(texts: seq<string>)
    ensures Entries(CommentItems(texts)) == []
    decreases |texts|
  {
    if texts != [] {
      assert CommentItems(texts)[..|texts| - 1] == CommentItems(texts[..|texts| - 1]);
      CommentsHaveNoEntries(texts[..|texts| - 1]);
    }
  }

  lemma SplitBlock(block: seq<Assignment>)
    requires block != []
    ensures EntryItems(block) == EntryItems(block[..|block| - 1]) + [Entry(block[|block| - 1])]
    ensures Pairs(block) == Pairs(block[..|block| - 1]) + [PairOf(block[|block| - 1])]
  {
    var n := |block| - 1;
    var items, pairs := EntryItems(block[..n]) + [Entry(block[n])], Pairs(block[..n]) + [PairOf(block[n])];
    assert |EntryItems(block)| == |items| && |Pairs(block)| == |pairs|;
    forall i | 0 <= i <= n
      ensures EntryItems(block)[i] == items[i] && Pairs(block)[i] == pairs[i]
    {
      if i < n { assert block[..n][i] == block[i]; }
    }
  }

  lemma AppendEntry(items: seq<Item>, a: Assignment)
    ensures Entries(items + [Entry(a)]) == Entries(items) + [PairOf(a)]
  {
    assert (items + [Entry(a)])[..|items|] == items;
  }

  lemma {:induction false} EntriesOfBlock(block: seq<Assignment>)
    ensures Entries(EntryItems(block)) == Pairs(block)
    decreases |block|
  {
    if block != [] {
      SplitBlock(block);
      EntriesOfBlock(block[..|block| - 1]);
      AppendEntry(EntryItems(block[..|block| - 1]), block[|block| - 1]);
    }
  }

  lemma BlockEntries(comments: seq<string>, block: seq<Assignment>)
    ensures Entries(Block(comments, block)) == Pairs(block)
  {
    CommentsHaveNoEntries(comments);
    EntriesOfBlock(block);
    EntriesJoin(CommentItems(comments), EntryItems(block));
    var items := CommentItems(comments) + EntryItems(block);
    assert Block(comments, block)[..|items|] == items;
  }

  lemma LayoutEntries(f: Fixture)
    ensures Entries(Layout(f)) == Intended(f)
  {
    var a, b, c, d := Block(f.comments.header, []), Block([], TestAccount(f)), Block(f.comments.signup, Signup(f)),
                      Block(f.comments.worker + [Hint(f)], Worker(f));
    BlockEntries(f.comments.header, []);
    BlockEntries([], TestAccount(f));
    BlockEntries(f.comments.signup, Signup(f));
    BlockEntries(f.comments.worker + [Hint(f)], Worker(f));
    EntriesOfBlock(Seeded(f));
    EntriesJoin(a, b);
    EntriesJoin(a + b, c);
    EntriesJoin(a + b + c, d);
    EntriesJoin(a + b + c + d, EntryItems(Seeded(f)));
    PairsJoin(TestAccount(f), Signup(f));
    PairsJoin(TestAccount(f) + Signup(f), Worker(f));
  }

  lemma PairsJoin(a: seq<Assignment>, b: seq<Assignment>)
    ensures Pairs(a + b) == Pairs(a) + Pairs(b)
  {
  }

  lemma BlockIsCarried(comments: seq<string>, block: seq<Assignment>)
    requires AllOneLine(comments) && AllClean(block)
    ensures AllCarried(Block(comments, block)) && AllCarried(EntryItems(block))
  {
    assert forall i :: 0 <= i < |block| ==> Carried(EntryItems(block)[i]);
  }

  lemma CleanSplits(f: Fixture)
    ensures AllClean(CheckedValues(f)) <==> AllClean(TestAccount(f)) && AllClean(Signup(f)) && AllClean(Worker(f))
  {
    var all := CheckedValues(f);
    assert forall i :: 0 <= i < 4 ==> all[i] == TestAccount(f)[i];
    assert forall i :: 0 <= i < 2 ==> all[i + 4] == Signup(f)[i];
    assert forall i :: 0 <= i < 4 ==> all[i + 6] == Worker(f)[i];
  }

  lemma LayoutIsCarried(f: Fixture)
    requires WellFormed(f) && AllClean(CheckedValues(f))
    ensures AllCarried(Layout(f))
  {
    CleanSplits(f);
    assert Clean(Worker(f)[0].value) && Clean(Worker(f)[1].value);
    BlockIsCarried(f.comments.header, []);
    BlockIsCarried([], TestAccount(f));
    BlockIsCarried(f.comments.signup, Signup(f));
    BlockIsCarried(f.comments.worker + [Hint(f)], Worker(f));
    BlockIsCarried([], Seeded(f));
  }

  lemma IntendedValuesAreParsed(f: Fixture, i: nat)
    requires i < |CheckedValues(f)| && Parse(Render(Layout(f))) == Intended(f)
    ensures Clean(CheckedValues(f)[i].value)
  {
    var text := Render(Layout(f));
    assert Intended(f)[i] == Pairs(CheckedValues(f))[i];
    assert Intended(f)[i] in Intended(f);
    forall l | l in Lines(text)
      ensures OneLine(l)
    {
      LinesAreOneLine(text, "", l);
    }
    ParsedValuesAreClean(Lines(text), Intended(f)[i]);
  }

  /** The runner reads back exactly the intended variables, in order, if and only if every seeded value is
      non-empty and free of newlines. An `=` in a value is carried: only the first one splits the line. */
  lemma RunnerReadsBackIff(f: Fixture)
    requires WellFormed(f)
    ensures Parse(Render(Layout(f))) == Intended(f) <==> AllClean(CheckedValues(f))
  {
    if AllClean(CheckedValues(f)) {
      LayoutIsCarried(f);
      PrintedEntriesComeBack(Layout(f));
      LayoutEntries(f);
    }
    if Parse(Render(Layout(f))) == Intended(f) {
      forall i | 0 <= i < |CheckedValues(f)|
        ensures Clean(CheckedValues(f)[i].value)
      {
        IntendedValuesAreParsed(f, i);
      }
    }
  }

  // ----- The validator -----

  predicate IsSpace(c: char) {
    c in {' ', '\t', '\n', '\r', '\U{0B}', '\U{0C}', '\U{85}', '\U{A0}',
          '\U{1680}', '\U{2028}', '\U{2029}', '\U{202F}', '\U{205F}', '\U{3000}'}
    || '\U{2000}' <= c <= '\U{200A}'
  }

  /** strings.TrimSpace(value) == "". */
  predicate IsBlank(value: string) {
    forall c :: c in value ==> IsSpace(c)
  }

  predicate Passes(value: string) {
    '=' !in value && '\'' !in value && '\n' !in value && '\r' !in value && !IsBlank(value)
  }

  /** validateMaestroValues, its map walked in any order: an error names a value that fails. */
  method ValidateMaestroValues(values: seq<Assignment>) returns (ok: bool, offender: Variable)
    ensures ok <==> forall a :: a in values ==> Passes(a.value)
    ensures !ok ==> exists a :: a in values && a.name == offender && !Passes(a.value)
  {
    offender := TestSubdomain;
    var n := 0;
    while n < |values|
      invariant 0 <= n <= |values|
      invariant forall k :: 0 <= k < n ==> Passes(values[k].value)
    {
      var value := values[n].value;
      if exists c :: c in value && c in "='\n\r" {
        assert values[n] in values;
        return false, values[n].name;
      }
      if forall c :: c in value ==> IsSpace(c) {
        assert values[n] in values;
        return false, values[n].name;
      }
      n := n + 1;
    }
    ok := true;
  }

  /** The output stream, line by line. */
  class Output {
    var lines: seq<string>

    constructor ()
      ensures lines == []
    {
      lines := [];
    }

    method Println(i: Item)
      modifies this
      ensures lines == old(lines) + [LineFor(i)]
    {
      lines := lines + [LineFor(i)];
    }

    /** The Printf calls of one block, one after the other. */
    method PrintBlock(items: seq<Item>)
      modifies this
      ensures lines == old(lines) + Written(items)
    {
      var n := 0;
      while n < |items|
        invariant 0 <= n <= |items|
        invariant lines == old(lines) + Written(items)[..n]
      {
        Println(items[n]);
        n := n + 1;
      }
    }

    /** printMaestroEnv. */
    method PrintMaestroEnv(f: Fixture)
      requires lines == []
      modifies this
      ensures lines == Written(Layout(f))
    {
      PrintBlock(Block(f.comments.header, []));
      PrintBlock(Block([], TestAccount(f)));
      PrintBlock(Block(f.comments.signup, Signup(f)));
      PrintBlock(Block(f.comments.worker + [Hint(f)], Worker(f)));
      PrintBlock(EntryItems(Seeded(f)));
      WrittenLayout(f);
    }
  }

  lemma WrittenJoin(a: seq<Item>, b: seq<Item>)
    ensures Written(a + b) == Written(a) + Written(b)
  {
  }

  lemma WrittenLayout(f: Fixture)
    ensures Written(Layout(f)) == Written(Block(f.comments.header, [])) + Written(Block([], TestAccount(f)))
      + Written(Block(f.comments.signup, Signup(f))) + Written(Block(f.comments.worker + [Hint(f)], Worker(f)))
      + Written(EntryItems(Seeded(f)))
  {
    var a, b, c, d, e := Block(f.comments.header, []), Block([], TestAccount(f)), Block(f.comments.signup, Signup(f)),
                         Block(f.comments.worker + [Hint(f)], Worker(f)), EntryItems(Seeded(f));
    WrittenJoin(a, b);
    WrittenJoin(a + b, c);
    WrittenJoin(a + b + c, d);
    WrittenJoin(a + b + c + d, e);
  }

  /** Validate, print, read back: the runner gets what was seeded, or nothing was printed. */
  method SeedAndRun(f: Fixture) returns (ok: bool, flags: seq<Pair>)
    requires WellFormed(f)
    ensures ok ==> flags == Intended(f)
    ensures (forall a :: a in CheckedValues(f) ==> Passes(a.value)) ==> ok
  {
    var offender;
    ok, offender := ValidateMaestroValues(CheckedValues(f));
    flags := [];
    if ok {
      var out := new Output();
      out.PrintMaestroEnv(f);
      flags := ReadEnv(Text(out.lines));
      ValidatedIsCarried(f);
    }
  }

  /** The runner's while loop over the lines. */
  method ReadEnv(text: string) returns (flags: seq<Pair>)
    ensures flags == Parse(text)
  {
    var lines := Lines(text);
    flags := [];
    var n := 0;
    while n < |lines|
      invariant 0 <= n <= |lines|
      invariant flags == ParseLines(lines[..n])
    {
      assert lines[..n + 1][..n] == lines[..n];
      if Kept(lines[n]) {
        flags := flags + [Pair(KeyOf(lines[n]), ValueOf(lines[n]))];
      }
      n := n + 1;
    }
    assert lines[..n] == lines;
  }

  lemma ValidatedIsCarried(f: Fixture)
    requires WellFormed(f) && forall a :: a in CheckedValues(f) ==> Passes(a.value)
    ensures Parse(Render(Layout(f))) == Intended(f)
  {
    forall i | 0 <= i < |CheckedValues(f)|
      ensures Clean(CheckedValues(f)[i].value)
    {
      assert CheckedValues(f)[i] in CheckedValues(f);
    }
    RunnerReadsBackIff(f);
  }

  // ----- The Makefile -----

  /** grep -v '^#' | grep '=.' */
  predicate Grepped(line: string) {
    !(line != "" && line[0] == '#') && exists i :: 0 <= i < |line| - 1 && line[i] == '='
  }

  /** The Makefile and the runner keep the same lines. */
  lemma {:induction false} BothKeepTheSameLines(line: string)
    ensures Grepped(line) <==> Kept(line)
  {
    if '=' in line {
      var i :| 0 <= i < |line| && line[i] == '=';
      FirstEquals(line);
      if Grepped(line) {
        var k :| 0 <= k < |line| - 1 && line[k] == '=';
        EqualsAfterFirst(line, k);
      }
      if Kept(line) {
        assert line[|line| - 1 - |ValueOf(line)|] == '=';
      }
    }
  }

  lemma {:induction false} FirstEquals(line: string)
    requires '=' in line
    ensures |ValueOf(line)| < |line| && line[|line| - 1 - |ValueOf(line)|] == '='
  {
    if line[0] != '=' { FirstEquals(line[1..]); }
  }

  lemma {:induction false} EqualsAfterFirst(line: string, k: nat)
    requires k < |line| && line[k] == '='
    ensures |ValueOf(line)| >= |line| - 1 - k
  {
    if line[0] != '=' { EqualsAfterFirst(line[1..], k - 1); }
  }

  /** What the shell makes of text made of plain words, spaces and single quotes. */
  function Shell(text: string, word: string, started: bool, quoted: bool): seq<string>
    decreases |text|
  {
    if text == "" then (if started then [word] else [])
    else if quoted then
      if text[0] == '\'' then Shell(text[1..], word, true, false) else Shell(text[1..], word + [text[0]], true, true)
    else if text[0] == '\'' then Shell(text[1..], word, true, true)
    else if text[0] == ' ' then (if started then [word] else []) + Shell(text[1..], "", false, false)
    else Shell(text[1..], word + [text[0]], true, false)
  }

  /** sed "s/^/-e '/; s/$/'/" | tr '\n' ' ' */
  function Flags(lines: seq<string>): string {
    if lines == [] then "" else "-e '" + lines[0] + "' " + Flags(lines[1..])
  }

  function FlagWords(lines: seq<string>): seq<string> {
    if lines == [] then [] else ["-e", lines[0]] + FlagWords(lines[1..])
  }

  lemma {:induction false} QuotedTextIsOneWord(line: string, rest: string, word: string)
    requires '\'' !in line
    ensures Shell(line + "' " + rest, word, true, true) == [word + line] + Shell(rest, "", false, false)
    decreases |line|
  {
    var text := line + "' " + rest;
    if line == "" {
      assert text[0] == '\'' && text[1..][0] == ' ' && text[1..][1..] == rest && word + line == word;
    } else {
      assert text[0] == line[0] && text[1..] == line[1..] + "' " + rest;
      QuotedTextIsOneWord(line[1..], rest, word + [line[0]]);
      assert word + [line[0]] + line[1..] == word + line;
    }
  }

  /** Without a single quote in them, all lines reach maestro as written, spaces and all. */
  lemma {:induction false} MakefileCarriesUnquotedLines(lines: seq<string>)
    requires forall l :: l in lines ==> '\'' !in l
    ensures Shell(Flags(lines), "", false, false) == FlagWords(lines)
  {
    if lines != [] {
      var rest := Flags(lines[1..]);
      FlagIsTwoWords(lines[0], rest);
      MakefileCarriesUnquotedLines(lines[1..]);
    }
  }

  lemma FlagIsTwoWords(line: string, rest: string)
    requires '\'' !in line
    ensures Shell("-e '" + line + "' " + rest, "", false, false) == ["-e", line] + Shell(rest, "", false, false)
  {
    var tail := line + "' " + rest;
    var text := "-e '" + line + "' " + rest;
    var t1, t2, t3 := text[1..], text[2..], text[3..];
    assert t1[1..] == t2 && t2[1..] == t3 && t3 == "'" + tail && t3[1..] == tail;
    assert "" + ['-'] == "-" && "-" + ['e'] == "-e" && "" + line == line;
    assert Shell(text, "", false, false) == Shell(t1, "-", true, false);
    assert Shell(t1, "-", true, false) == Shell(t2, "-e", true, false);
    assert Shell(t2, "-e", true, false) == ["-e"] + Shell(t3, "", false, false);
    assert Shell(t3, "", false, false) == Shell(tail, "", true, true);
    QuotedTextIsOneWord(line, rest, "");
  }
}
