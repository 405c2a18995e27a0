/** Variables of a crontab, as parse_crontab of src/bin/systemd-crontab-generator.cpp threads
    them from line to line: which of them a job sees. */
module Environment {
  import opened Basics
  import opened Tokens
  import opened Text

  /** What one line of the file is: nothing if it is empty or a comment. */
  datatype Line = Nothing | Assignment(key: string, value: string) | JobLine(text: string)

  type Variables = map<string, string>

  // ---------------------------------------------------------------- lines

  predicate IsWordChar(c: char) {
    'A' <= c <= 'Z' || 'a' <= c <= 'z' || '0' <= c <= '9' || c == '_'
  }

  function WordEnd(s: string, i: nat): (j: nat)
    requires i <= |s|
    ensures i <= j <= |s| && (forall k :: i <= k < j ==> IsWordChar(s[k])) && (j < |s| ==> !IsWordChar(s[j]))
    decreases |s| - i
  {
    if i < |s| && IsWordChar(s[i]) then WordEnd(s, i + 1) else i
  }

  /** The match of ENVVAR_RE in src/include/util.hpp: a key, `=`, and the rest after blanks. */
  function Classify(line: string): Line {
    var k := WordEnd(line, 0);
    var e := SpaceEnd(line, k);
    if k > 0 && e < |line| && line[e] == '=' then Assignment(line[..k], line[SpaceEnd(line, e + 1)..]) else JobLine(line)
  }

  // ---------------------------------------------------------------- what a line is meant to be

  /** Letters, digits and underscores, one at least. */
  predicate AllWord(s: string) {
    s != [] && forall i :: 0 <= i < |s| ==> s[i] == '_' || '0' <= s[i] <= '9' || 'a' <= s[i] <= 'z' || 'A' <= s[i] <= 'Z'
  }

  /** A blank, or tab, new-line, vertical tab, form feed or carriage return. */
  predicate Blank(c: char) {
    c == ' ' || 9 <= c as int <= 13
  }

  predicate AllBlank(s: string) {
    forall i :: 0 <= i < |s| ==> Blank(s[i])
  }

  function Assigning(key: string, before: string, after: string, value: string): string {
    key + before + ['='] + after + value
  }

  /** What the regular expression says: word characters, blanks, `=`, as many blanks as there are,
      and the rest. */
  ghost predicate IsAssignment(line: string, key: string, value: string) {
    && AllWord(key) && (value != [] ==> !Blank(value[0]))
    && exists before, after :: AllBlank(before) && AllBlank(after) && line == Assigning(key, before, after, value)
  }

  function Around(before: string, text: string, after: string): string {
    before + text + after
  }

  /** What a line says, without the blanks around it. */
  ghost predicate Says(line: string, text: string) {
    && (text != [] ==> !Blank(text[0]) && !Blank(text[|text| - 1]))
    && exists before, after :: AllBlank(before) && AllBlank(after) && line == Around(before, text, after)
  }

  /** It sets a variable. */
  ghost predicate Sets(line: string, key: string, value: string) {
    exists text :: Says(line, text) && IsAssignment(text, key, value)
  }

  /** It is a job: not empty, no comment, and no assignment. */
  ghost predicate IsJob(line: string, text: string) {
    Says(line, text) && text != [] && text[0] != '#' && forall key, value :: !IsAssignment(text, key, value)
  }

  // ---------------------------------------------------------------- what the code makes of it

  lemma {:induction false} WordEndsAt(s: string, i: nat, j: nat)
    requires i <= j <= |s| && (forall k :: i <= k < j ==> IsWordChar(s[k])) && (j < |s| ==> !IsWordChar(s[j]))
    ensures WordEnd(s, i) == j
    decreases j - i
  {
    if i < j {
      WordEndsAt(s, i + 1, j);
    }
  }

  /** Where the parts of an assignment are. */
  lemma PartsOf(key: string, before: string, after: string, value: string)
    ensures var line, e := Assigning(key, before, after, value), |key| + |before|;
            && |line| == e + 1 + |after| + |value| && line[e] == '='
            && (forall i :: 0 <= i < |key| ==> line[i] == key[i])
            && (forall i :: |key| <= i < e ==> line[i] == before[i - |key|])
            && (forall i :: e + 1 <= i < e + 1 + |after| ==> line[i] == after[i - e - 1])
            && line[..|key|] == key && line[e + 1 + |after|..] == value
  {
  }

  lemma AssignmentIsRead(key: string, before: string, after: string, value: string)
    requires AllWord(key) && AllBlank(before) && AllBlank(after) && (value != [] ==> !Blank(value[0]))
    ensures Classify(Assigning(key, before, after, value)) == Assignment(key, value)
  {
    var line, e := Assigning(key, before, after, value), |key| + |before|;
    PartsOf(key, before, after, value);
    WordEndsAt(line, 0, |key|);
    SpaceEndAt(line, |key|, e);
    assert value != [] ==> line[e + 1 + |after|] == value[0];
    SpaceEndAt(line, e + 1, e + 1 + |after|);
  }

  lemma FiveParts(line: string, k: nat, e: nat, v: nat)
    requires k <= e < v <= |line|
    ensures line == line[..k] + line[k..e] + [line[e]] + line[e + 1..v] + line[v..]
  {
    assert line[..e] == line[..k] + line[k..e];
    assert line[..e + 1] == line[..e] + [line[e]];
    assert line[..v] == line[..e + 1] + line[e + 1..v];
    assert line == line[..v] + line[v..];
  }

  lemma BlankSlice(line: string, i: nat, j: nat)
    requires i <= j <= |line| && forall k :: i <= k < j ==> IsSpace(line[k])
    ensures AllBlank(line[i..j])
  {
    forall k | 0 <= k < j - i
      ensures IsSpace(line[i..j][k])
    {
      assert line[i..j][k] == line[i + k];
    }
  }

  lemma WordSlice(line: string, k: nat)
    requires 0 < k <= |line| && forall i :: 0 <= i < k ==> IsWordChar(line[i])
    ensures AllWord(line[..k])
  {
  }

  lemma ReadIsAssignment(line: string)
    requires Classify(line).Assignment?
    ensures IsAssignment(line, Classify(line).key, Classify(line).value)
  {
    var k := WordEnd(line, 0);
    var e := SpaceEnd(line, k);
    var v := SpaceEnd(line, e + 1);
    WordSlice(line, k);
    BlankSlice(line, k, e);
    BlankSlice(line, e + 1, v);
    FiveParts(line, k, e, v);
    assert line == Assigning(line[..k], line[k..e], line[e + 1..v], line[v..]);
    assert v < |line| ==> line[v..][0] == line[v];
  }

  /** A line is an assignment just if the regular expression matches it, with that key and value. */
  lemma ClassifyExactly(line: string, key: string, value: string)
    ensures Classify(line) == Assignment(key, value) <==> IsAssignment(line, key, value)
  {
    if Classify(line) == Assignment(key, value) {
      ReadIsAssignment(line);
    }
    if IsAssignment(line, key, value) {
      var before, after :| AllBlank(before) && AllBlank(after) && line == Assigning(key, before, after, value);
      AssignmentIsRead(key, before, after, value);
    }
  }

  function TrimRight(s: string): string {
    if s != [] && IsSpace(s[|s| - 1]) then TrimRight(s[..|s| - 1]) else s
  }

  /** A line of the file, without the blanks around it; empty ones and comments are skipped. */
  function LineOf(token: string): Line {
    var line := TrimLeft(token);
    if line == [] || line[0] == '#' then Nothing else Classify(TrimRight(line))
  }

  function LinesOf(tokens: seq<string>): (lines: seq<Line>)
    ensures |lines| == |tokens| && forall n :: 0 <= n < |lines| ==> lines[n] == LineOf(tokens[n])
  {
    seq(|tokens|, n requires 0 <= n < |tokens| => LineOf(tokens[n]))
  }

  lemma {:induction false} TrimRightIs(text: string, after: string)
    requires AllBlank(after) && (text != [] ==> !Blank(text[|text| - 1]))
    ensures TrimRight(text + after) == text
    decreases |after|
  {
    if after == [] {
      assert text + after == text;
    } else {
      var less := after[..|after| - 1];
      assert (text + after)[..|text + after| - 1] == text + less;
      TrimRightIs(text, less);
    }
  }

  lemma TrimLeftIs(before: string, rest: string)
    requires AllBlank(before) && (rest != [] ==> !Blank(rest[0]))
    ensures TrimLeft(before + rest) == rest
  {
    var s := before + rest;
    assert |before| < |s| ==> s[|before|] == rest[0];
    SpaceEndAt(s, 0, |before|);
    assert s[|before|..] == rest;
  }

  lemma {:induction false} TrimRightRest(s: string) returns (after: string)
    ensures AllBlank(after) && s == TrimRight(s) + after
    ensures TrimRight(s) != [] ==> !Blank(TrimRight(s)[|TrimRight(s)| - 1])
  {
    if s != [] && IsSpace(s[|s| - 1]) {
      var less := s[..|s| - 1];
      var more := TrimRightRest(less);
      after := more + [s[|s| - 1]];
      assert s == less + [s[|s| - 1]];
    } else {
      after := [];
      assert s == s + after;
    }
  }

  /** What the code takes for the text of a line. */
  function Trimmed(token: string): string {
    TrimRight(TrimLeft(token))
  }

  lemma BlanksAround(token: string, before: string, text: string, after: string)
    requires AllBlank(before) && AllBlank(after) && token == Around(before, text, after)
    requires text != [] ==> !Blank(text[0]) && !Blank(text[|text| - 1])
    ensures Trimmed(token) == text && TrimLeft(token) == if text == [] then [] else text + after
  {
    if text == [] {
      assert token == (before + after) + [];
      TrimLeftIs(before + after, []);
    } else {
      assert token == before + (text + after) && (text + after)[0] == text[0];
      TrimLeftIs(before, text + after);
      TrimRightIs(text, after);
    }
  }

  lemma TrimmedIsSaid(token: string)
    ensures Says(token, Trimmed(token))
  {
    var k := SpaceEnd(token, 0);
    var after := TrimRightRest(TrimLeft(token));
    var before := token[..k];
    assert token == before + token[k..];
    assert token == Around(before, Trimmed(token), after);
    if Trimmed(token) != [] {
      assert Trimmed(token)[0] == token[k];
    }
  }

  /** Only that is what the line says. */
  lemma TrimmedSays(token: string, text: string)
    ensures Says(token, text) <==> text == Trimmed(token)
  {
    if Says(token, text) {
      var before, after :| AllBlank(before) && AllBlank(after) && token == Around(before, text, after);
      BlanksAround(token, before, text, after);
    }
    TrimmedIsSaid(token);
  }

  /** Which lines the code skips. */
  lemma SkippedLines(token: string)
    ensures LineOf(token) == if Trimmed(token) == [] || Trimmed(token)[0] == '#' then Nothing else Classify(Trimmed(token))
  {
    TrimmedSays(token, Trimmed(token));
    var before, after :| AllBlank(before) && AllBlank(after) && token == Around(before, Trimmed(token), after);
    BlanksAround(token, before, Trimmed(token), after);
  }

  lemma KeyIsNoComment(text: string, key: string, value: string)
    requires IsAssignment(text, key, value)
    ensures text != [] && text[0] != '#'
  {
    var before, after :| AllBlank(before) && AllBlank(after) && text == Assigning(key, before, after, value);
    assert text[0] == key[0];
  }

  lemma JobExactly(token: string, text: string)
    ensures LineOf(token) == JobLine(text) <==> IsJob(token, text)
  {
    SkippedLines(token);
    TrimmedSays(token, text);
    if Says(token, text) {
      if Classify(text).Assignment? {
        ClassifyExactly(text, Classify(text).key, Classify(text).value);
      }
      forall key, value
        ensures Classify(text) == Assignment(key, value) <==> IsAssignment(text, key, value)
      {
        ClassifyExactly(text, key, value);
      }
    }
  }

  lemma SetsExactly(token: string, key: string, value: string)
    ensures LineOf(token) == Assignment(key, value) <==> Sets(token, key, value)
  {
    SkippedLines(token);
    TrimmedSays(token, Trimmed(token));
    ClassifyExactly(Trimmed(token), key, value);
    if IsAssignment(Trimmed(token), key, value) {
      KeyIsNoComment(Trimmed(token), key, value);
    }
    if Sets(token, key, value) {
      var text :| Says(token, text) && IsAssignment(text, key, value);
      TrimmedSays(token, text);
    }
  }

  /** Every line of a file is read for what it says: a job just if it is one, with the text between
      the blanks, and an assignment just if it sets that variable to that value; the others are
      skipped. */
  lemma LineExactly(token: string)
    ensures forall text :: LineOf(token) == JobLine(text) <==> IsJob(token, text)
    ensures forall key, value :: LineOf(token) == Assignment(key, value) <==> Sets(token, key, value)
  {
    forall text
      ensures LineOf(token) == JobLine(text) <==> IsJob(token, text)
    {
      JobExactly(token, text);
    }
    forall key, value
      ensures LineOf(token) == Assignment(key, value) <==> Sets(token, key, value)
    {
      SetsExactly(token, key, value);
    }
  }

  // ---------------------------------------------------------------- quotes

  predicate InQuotes(v: string) {
    |v| >= 2 && v[0] == v[|v| - 1] && (v[0] == '\'' || v[0] == '\"')
  }

  function Bare(v: string): (b: string)
    ensures !InQuotes(b)
    decreases |v|
  {
    if InQuotes(v) then Bare(v[1..|v| - 1]) else v
  }

  predicate AllQuotes(q: string) {
    forall i :: 0 <= i < |q| ==> q[i] == '\'' || q[i] == '\"'
  }

  function Mirrored(q: string): (r: string)
    ensures |r| == |q|
  {
    if q == [] then [] else Mirrored(q[1..]) + [q[0]]
  }

  lemma BareStrips(x: char, inner: string)
    requires x == '\'' || x == '\"'
    ensures Bare([x] + inner + [x]) == Bare(inner)
  {
    var v := [x] + inner + [x];
    assert v[1..|v| - 1] == inner;
  }

  lemma AroundOnce(q: string, b: string)
    requires q != []
    ensures q + b + Mirrored(q) == [q[0]] + (q[1..] + b + Mirrored(q[1..])) + [q[0]]
  {
  }

  /** The stripped value is the only one without quotes around it that gives the value back when
      some quotes are put before it and their mirror image after it. */
  lemma {:induction false} BareIsUnique(q: string, b: string)
    requires AllQuotes(q) && !InQuotes(b)
    ensures Bare(q + b + Mirrored(q)) == b
    decreases |q|
  {
    if q == [] {
      assert q + b + Mirrored(q) == b;
    } else {
      AroundOnce(q, b);
      BareStrips(q[0], q[1..] + b + Mirrored(q[1..]));
      BareIsUnique(q[1..], b);
    }
  }

  lemma Wrapped(v: string, inner: string, rest: string, b: string)
    requires InQuotes(v) && inner == v[1..|v| - 1] == rest + b + Mirrored(rest)
    ensures v == [v[0]] + rest + b + Mirrored([v[0]] + rest)
  {
    assert v == [v[0]] + inner + [v[0]];
    assert ([v[0]] + rest)[1..] == rest;
  }

  lemma {:induction false} BareInQuotes(v: string) returns (q: string)
    ensures AllQuotes(q) && v == q + Bare(v) + Mirrored(q)
    decreases |v|
  {
    if InQuotes(v) {
      var rest := BareInQuotes(v[1..|v| - 1]);
      q := [v[0]] + rest;
      assert q[1..] == rest;
      Wrapped(v, v[1..|v| - 1], rest, Bare(v));
    } else {
      q := [];
    }
  }

  method StripQuotes(value: string) returns (v: string)
    ensures v == Bare(value)
  {
    v := value;
    while |v| >= 2 && ((v[0] == '\'' && v[|v| - 1] == '\'') || (v[0] == '\"' && v[|v| - 1] == '\"'))
      invariant Bare(v) == Bare(value)
      decreases |v|
    {
      v := v[1..|v| - 1];
    }
  }

  // ---------------------------------------------------------------- what a job sees

  predicate Assigns(line: Line, key: string) {
    line.Assignment? && line.key == key
  }

  /** The last assignment to a variable among the first n lines. */
  function LastAssignment(lines: seq<Line>, n: nat, key: string): (last: Option<nat>)
    requires n <= |lines|
    ensures last.None? ==> forall i :: 0 <= i < n ==> !Assigns(lines[i], key)
    ensures last.Some? ==> last.value < n && Assigns(lines[last.value], key)
                           && forall i :: last.value < i < n ==> !Assigns(lines[i], key)
  {
    if n == 0 then None
    else if Assigns(lines[n - 1], key) then Some(n - 1)
    else LastAssignment(lines, n - 1, key)
  }

  /** What one assignment makes of its variable. */
  function Assigned(key: string, value: string): Option<string> {
    if key == "PERSISTENT" && Bare(value) == "auto" then None else Some(Bare(value))
  }

  function Lookup(env: Variables, key: string): Option<string> {
    if key in env then Some(env[key]) else None
  }

  /** The last assignment above counts, else what was inherited; CRON_INHERIT_VARIABLES is never
      a variable of a job. */
  function Seen(inherited: Variables, lines: seq<Line>, n: nat, key: string): Option<string>
    requires n <= |lines|
  {
    var last := LastAssignment(lines, n, key);
    if last.Some? && key != "CRON_INHERIT_VARIABLES" then Assigned(key, lines[last.value].value) else Lookup(inherited, key)
  }

  ghost predicate Holds(inherited: Variables, lines: seq<Line>, n: nat, env: Variables)
    requires n <= |lines|
  {
    forall key :: Lookup(env, key) == Seen(inherited, lines, n, key)
  }

  method Assign(environment: Variables, key: string, quoted: string) returns (env: Variables)
    ensures forall k :: Lookup(env, k) ==
              if k == key && key != "CRON_INHERIT_VARIABLES" then Assigned(key, quoted) else Lookup(environment, k)
  {
    env := environment;
    var value := StripQuotes(quoted);
    if key == "PERSISTENT" && value == "auto" {
      env := environment - {key};
    } else if key != "CRON_INHERIT_VARIABLES" {
      env := environment[key := value];
    }
  }

  lemma HoldsStep(inherited: Variables, lines: seq<Line>, n: nat, env: Variables, env': Variables)
    requires n < |lines| && Holds(inherited, lines, n, env)
    requires if !lines[n].Assignment? then env' == env else
             forall k :: Lookup(env', k) ==
               if k == lines[n].key && k != "CRON_INHERIT_VARIABLES" then Assigned(k, lines[n].value) else Lookup(env, k)
    ensures Holds(inherited, lines, n + 1, env')
  {
    forall key
      ensures Lookup(env', key) == Seen(inherited, lines, n + 1, key)
    {
      assert Lookup(env, key) == Seen(inherited, lines, n, key);
    }
  }

  /** A job, with the variables it was given. */
  datatype Job = Job(line: nat, text: string, env: Variables)

  /** The jobs among the first n lines, in order, each with what it sees. */
  ghost predicate JobsAmong(inherited: Variables, lines: seq<Line>, n: nat, jobs: seq<Job>)
    requires n <= |lines|
  {
    && (forall k :: 0 <= k < |jobs| ==>
          jobs[k].line < n && lines[jobs[k].line] == JobLine(jobs[k].text) && Holds(inherited, lines, jobs[k].line, jobs[k].env))
    && (forall m :: 0 <= m < n && lines[m].JobLine? ==> exists k :: 0 <= k < |jobs| && jobs[k].line == m)
    && (forall j, k :: 0 <= j < k < |jobs| ==> jobs[j].line < jobs[k].line)
  }

  lemma OneMoreJob(inherited: Variables, lines: seq<Line>, n: nat, jobs: seq<Job>, env: Variables)
    requires n < |lines| && JobsAmong(inherited, lines, n, jobs) && lines[n].JobLine? && Holds(inherited, lines, n, env)
    ensures JobsAmong(inherited, lines, n + 1, jobs + [Job(n, lines[n].text, env)])
  {
    var more := jobs + [Job(n, lines[n].text, env)];
    assert more[|jobs|].line == n;
    forall m | 0 <= m < n && lines[m].JobLine?
      ensures exists k :: 0 <= k < |more| && more[k].line == m
    {
      var k :| 0 <= k < |jobs| && jobs[k].line == m;
      assert more[k].line == m;
    }
  }

  lemma SameJobs(inherited: Variables, lines: seq<Line>, n: nat, jobs: seq<Job>)
    requires n < |lines| && JobsAmong(inherited, lines, n, jobs) && !lines[n].JobLine?
    ensures JobsAmong(inherited, lines, n + 1, jobs)
  {
  }

  /** What one line does. */
  method TakeLine(ghost inherited: Variables, ghost lines: seq<Line>, n: nat, line: Line, environment: Variables, jobs: seq<Job>)
      returns (env: Variables, more: seq<Job>)
    requires n < |lines| && line == lines[n]
    requires Holds(inherited, lines, n, environment) && JobsAmong(inherited, lines, n, jobs)
    ensures Holds(inherited, lines, n + 1, env) && JobsAmong(inherited, lines, n + 1, more)
  {
    env, more := environment, jobs;
    match line {
      case Nothing =>
        SameJobs(inherited, lines, n, jobs);
      case Assignment(key, quoted) =>
        env := Assign(environment, key, quoted);
        SameJobs(inherited, lines, n, jobs);
      case JobLine(text) =>
        OneMoreJob(inherited, lines, n, jobs, environment);
        more := jobs + [Job(n, text, environment)];
    }
    HoldsStep(inherited, lines, n, environment, env);
  }

  // ---------------------------------------------------------------- what it should see

  /** The n-th line is the last above the m-th that sets a variable. */
  ghost predicate LastSet(lines: seq<string>, m: nat, key: string, n: nat, value: string) {
    n < m <= |lines| && Sets(lines[n], key, value) && forall i, v :: n < i < m ==> !Sets(lines[i], key, v)
  }

  /** The last assignment above counts, without the quotes around its value, and PERSISTENT=auto
      as if there were none; else what was inherited. CRON_INHERIT_VARIABLES is never set. */
  ghost predicate Sees(inherited: Variables, lines: seq<string>, m: nat, env: Variables)
    requires m <= |lines|
  {
    && (forall key, n, value :: LastSet(lines, m, key, n, value) && key != "CRON_INHERIT_VARIABLES" ==>
          Lookup(env, key) == if key == "PERSISTENT" && Bare(value) == "auto" then None else Some(Bare(value)))
    && (forall key :: (key == "CRON_INHERIT_VARIABLES" || forall n, value :: 0 <= n < m ==> !Sets(lines[n], key, value)) ==>
          Lookup(env, key) == Lookup(inherited, key))
  }

  /** The jobs of a file, in order: one for each line that is a job, with what the line says and
      what it sees. */
  ghost predicate JobsOf(inherited: Variables, lines: seq<string>, jobs: seq<Job>) {
    && (forall k :: 0 <= k < |jobs| ==>
          jobs[k].line < |lines| && IsJob(lines[jobs[k].line], jobs[k].text) && Sees(inherited, lines, jobs[k].line, jobs[k].env))
    && (forall m, text :: 0 <= m < |lines| && IsJob(lines[m], text) ==> exists k :: 0 <= k < |jobs| && jobs[k].line == m)
    && (forall j, k :: 0 <= j < k < |jobs| ==> jobs[j].line < jobs[k].line)
  }

  lemma LastSetIs(tokens: seq<string>, m: nat, key: string, n: nat, value: string)
    requires m <= |tokens|
    ensures LastSet(tokens, m, key, n, value) <==>
              LastAssignment(LinesOf(tokens), m, key) == Some(n) && LinesOf(tokens)[n] == Assignment(key, value)
  {
    var lines := LinesOf(tokens);
    forall i | 0 <= i < m
      ensures forall v :: lines[i] == Assignment(key, v) <==> Sets(tokens[i], key, v)
    {
      LineExactly(tokens[i]);
    }
    var last := LastAssignment(lines, m, key);
    if LastSet(tokens, m, key, n, value) {
      assert Assigns(lines[n], key);
      assert last.Some? && last.value >= n;
    }
    if last == Some(n) && lines[n] == Assignment(key, value) {
      forall i, v | n < i < m
        ensures !Sets(tokens[i], key, v)
      {
        assert !Assigns(lines[i], key);
      }
    }
  }

  lemma NeverSet(tokens: seq<string>, m: nat, key: string)
    requires m <= |tokens|
    ensures LastAssignment(LinesOf(tokens), m, key).None? <==> forall n, value :: 0 <= n < m ==> !Sets(tokens[n], key, value)
  {
    var lines := LinesOf(tokens);
    var last := LastAssignment(lines, m, key);
    if last.Some? {
      LineExactly(tokens[last.value]);
      assert Sets(tokens[last.value], key, lines[last.value].value);
    } else {
      forall n, value | 0 <= n < m
        ensures !Sets(tokens[n], key, value)
      {
        LineExactly(tokens[n]);
        assert !Assigns(lines[n], key);
      }
    }
  }

  lemma HoldsIsSees(inherited: Variables, tokens: seq<string>, m: nat, env: Variables)
    requires m <= |tokens| && Holds(inherited, LinesOf(tokens), m, env)
    ensures Sees(inherited, tokens, m, env)
  {
    var lines := LinesOf(tokens);
    forall key, n, value | LastSet(tokens, m, key, n, value) && key != "CRON_INHERIT_VARIABLES"
      ensures Lookup(env, key) == if key == "PERSISTENT" && Bare(value) == "auto" then None else Some(Bare(value))
    {
      LastSetIs(tokens, m, key, n, value);
      assert Lookup(env, key) == Seen(inherited, lines, m, key);
    }
    forall key | key == "CRON_INHERIT_VARIABLES" || forall n, value :: 0 <= n < m ==> !Sets(tokens[n], key, value)
      ensures Lookup(env, key) == Lookup(inherited, key)
    {
      NeverSet(tokens, m, key);
      assert Lookup(env, key) == Seen(inherited, lines, m, key);
    }
  }

  lemma JobsAreJobs(inherited: Variables, tokens: seq<string>, jobs: seq<Job>)
    requires JobsAmong(inherited, LinesOf(tokens), |tokens|, jobs)
    ensures JobsOf(inherited, tokens, jobs)
  {
    var lines := LinesOf(tokens);
    forall k | 0 <= k < |jobs|
      ensures jobs[k].line < |tokens| && IsJob(tokens[jobs[k].line], jobs[k].text) && Sees(inherited, tokens, jobs[k].line, jobs[k].env)
    {
      LineExactly(tokens[jobs[k].line]);
      HoldsIsSees(inherited, tokens, jobs[k].line, jobs[k].env);
    }
    forall m, text | 0 <= m < |tokens| && IsJob(tokens[m], text)
      ensures exists k :: 0 <= k < |jobs| && jobs[k].line == m
    {
      LineExactly(tokens[m]);
      assert lines[m] == JobLine(text);
    }
  }

  /** parse_crontab's loop over the file: the jobs are the lines that are one, in order, and every
      job sees, for each variable, the last assignment above it, and nothing below it. */
  method ParseCrontab(file: string, inherited: Variables) returns (jobs: seq<Job>)
    ensures JobsOf(inherited, TokensOf(file, "\n"), jobs)
  {
    jobs := [];
    var environment := inherited;
    var views := Tokenise(file, "\n");
    ghost var tokens := TokensOf(file, "\n");
    ghost var lines := LinesOf(tokens);
    var n := 0;
    TokensAreRuns(file, "\n", 0, 0);
    while n < |views|
      invariant n <= |views| == |tokens|
      invariant Holds(inherited, lines, n, environment) && JobsAmong(inherited, lines, n, jobs)
    {
      TokensAreRuns(file, "\n", 0, n);
      environment, jobs := TakeLine(inherited, lines, n, LineOf(Chars(file, views[n])), environment, jobs);
      n := n + 1;
    }
    JobsAreJobs(inherited, tokens, jobs);
  }

  lemma LookupDecided(inherited: Variables, lines: seq<string>, n: nat, env: Variables, key: string)
    requires n <= |lines| && Sees(inherited, lines, n, env)
    ensures Lookup(env, key) == Seen(inherited, LinesOf(lines), n, key)
  {
    var last := LastAssignment(LinesOf(lines), n, key);
    if last.Some? && key != "CRON_INHERIT_VARIABLES" {
      LastSetIs(lines, n, key, last.value, LinesOf(lines)[last.value].value);
    } else {
      NeverSet(lines, n, key);
    }
  }

  lemma {:induction false} SeenAbove(inherited: Variables, lines: seq<Line>, others: seq<Line>, n: nat, key: string)
    requires n <= |lines| && n <= |others| && forall i :: 0 <= i < n ==> lines[i] == others[i]
    ensures LastAssignment(lines, n, key) == LastAssignment(others, n, key)
  {
    if n > 0 {
      SeenAbove(inherited, lines, others, n - 1, key);
    }
  }

  lemma SameLookups(env: Variables, other: Variables)
    requires forall key :: Lookup(env, key) == Lookup(other, key)
    ensures env == other
  {
    assert forall key :: key in env <==> Lookup(env, key).Some?;
    assert forall key :: key in other <==> Lookup(other, key).Some?;
    assert forall key :: key in env ==> env[key] == Lookup(env, key).value == Lookup(other, key).value;
  }

  lemma SeenAlike(inherited: Variables, lines: seq<string>, others: seq<string>, n: nat, key: string)
    requires n <= |lines| && n <= |others| && lines[..n] == others[..n]
    ensures Seen(inherited, LinesOf(lines), n, key) == Seen(inherited, LinesOf(others), n, key)
  {
    assert forall i :: 0 <= i < n ==> lines[i] == lines[..n][i] == others[i];
    SeenAbove(inherited, LinesOf(lines), LinesOf(others), n, key);
  }

  /** What a job sees is fixed by the lines above it. */
  lemma LinesBelowDoNotMatter(inherited: Variables, lines: seq<string>, others: seq<string>, n: nat, env: Variables, other: Variables)
    requires n <= |lines| && n <= |others| && lines[..n] == others[..n]
    requires Sees(inherited, lines, n, env) && Sees(inherited, others, n, other)
    ensures env == other
  {
    forall key
      ensures Lookup(env, key) == Lookup(other, key)
    {
      SeenAlike(inherited, lines, others, n, key);
      LookupDecided(inherited, lines, n, env, key);
      LookupDecided(inherited, others, n, other, key);
    }
    SameLookups(env, other);
  }
}
