/**
 The `.env.local` loader at the top of test-ai.js. The file text is split on
 `'\n'`; a line that is blank once trimmed, or whose first character is `#`, is
 skipped; any other line is split on `=`, and when the piece before the first
 `=` is non-empty and an `=` was present, the trimmed piece is written as the
 variable's name and the rest of the line (re-joined with `=`, then trimmed) as
 its value. Lines take effect one after another, in file order.
 */
module DotEnv {
  import opened Wrappers
  import opened JsString

  /** The process environment: variable name to value. */
  type Env = map<string, string>

  /** The skip test and key/value extraction of one line (test-ai.js:9-12),
      without the write: the name and value the line assigns, or None when the
      loader passes over it. `key` and `values` are the destructured pieces of
      `line.split('=')`; a JavaScript string is truthy when non-empty. */
  function ParseLine(line: string): Option<(string, string)> {
    if Trim(line) != [] && !StartsWith(line, '#') then
      var parts := Split(line, '=');
      var key, values := parts[0], parts[1..];
      if key != [] && |values| > 0 then Some((Trim(key), Trim(Join(values, '='))))
      else None
    else None
  }

  /** The lines the loader acts on, stated without `split`: not white space
      only, not starting with `#`, and holding an `=` that is not the first
      character. */
  predicate Accepted(line: string) {
    && !AllSpace(line)
    && !StartsWith(line, '#')
    && IndexOf(line, '=').Some? && IndexOf(line, '=').value > 0
  }

  /** Whether `line`, once parsed, assigns the variable `name`. */
  predicate Writes(line: string, name: string) {
    ParseLine(line).Some? && ParseLine(line).value.0 == name
  }

  /** A line is acted on exactly when it is `Accepted`, and then it assigns
      the trimmed text before its first `=` the trimmed text after it. */
  lemma ParseLineMeaning(line: string)
    ensures ParseLine(line).Some? <==> Accepted(line)
    ensures ParseLine(line).Some? ==>
              var i := IndexOf(line, '=').value;
              ParseLine(line) == Some((Trim(line[..i]), Trim(line[i + 1..])))
  {
    TrimMeaning(line);
    IndexOfMeaning(line, '=');
    SplitSingle(line, '=');
    match IndexOf(line, '=')
    case None =>
    case Some(i) =>
      SplitAtFirst(line, '=', i);
      assert |line[..i]| == i;
  }

  /** A line that is empty or white space only is skipped. */
  lemma BlankLineSkipped(line: string)
    requires AllSpace(line)
    ensures ParseLine(line) == None
  {
    ParseLineMeaning(line);
  }

  /** A line whose first character is `#` is skipped. */
  lemma CommentLineSkipped(line: string)
    requires |line| > 0 && line[0] == '#'
    ensures ParseLine(line) == None
  {
    ParseLineMeaning(line);
  }

  /** A line without `=` is skipped: `values` is empty. */
  lemma NoEqualsSkipped(line: string)
    requires '=' !in line
    ensures ParseLine(line) == None
  {
    IndexOfMeaning(line, '=');
    ParseLineMeaning(line);
  }

  /** A line whose first character is `=` is skipped: `key` is empty. */
  lemma LeadingEqualsSkipped(line: string)
    requires |line| > 0 && line[0] == '='
    ensures ParseLine(line) == None
  {
    ParseLineMeaning(line);
  }

  /** `key=value` with a non-empty key that holds no `=` and does not start
      with `#` assigns `Trim(key)` the trimmed `value`, every `=` inside
      `value` kept. With an empty `value` the variable is set to "". */
  lemma KeyValueLine(key: string, value: string)
    requires key != [] && '=' !in key && key[0] != '#'
    ensures ParseLine(key + "=" + value) == Some((Trim(key), Trim(value)))
  {
    var line := key + "=" + value;
    IndexOfAfter(key, '=', value);
    assert line[..|key|] == key && line[|key| + 1..] == value;
    assert line[|key|] == '=' && !IsSpace('=');
    ParseLineMeaning(line);
  }

  /** `key=a=b` assigns `Trim(key)` the value `a=b` trimmed: the second `=`
      survives the split and re-join (`A=b=c` sets `A` to `b=c`). */
  lemma EqualsKeptInValue(key: string, a: string, b: string)
    requires key != [] && '=' !in key && key[0] != '#'
    ensures ParseLine(key + "=" + a + "=" + b) == Some((Trim(key), Trim(a + "=" + b)))
  {
    assert key + "=" + a + "=" + b == key + "=" + (a + "=" + b);
    KeyValueLine(key, a + "=" + b);
  }

  /** `key=` with nothing after the `=` sets `Trim(key)` to the empty string
      (`KEY=` sets `KEY` to ""). */
  lemma EmptyValueAccepted(key: string)
    requires key != [] && '=' !in key && key[0] != '#'
    ensures ParseLine(key + "=") == Some((Trim(key), ""))
  {
    assert key + "=" == key + "=" + "";
    KeyValueLine(key, "");
    TrimKeeps("");
  }

  /** White space holds no `=`. */
  lemma NoEqualsInSpace(p: string)
    requires AllSpace(p)
    ensures '=' !in p
  {
  }

  /** The comment test looks at the untrimmed line: after indentation `p`, a
      `#` starts a variable name, not a comment (`  #X=1` sets `#X` to 1). */
  lemma IndentedHashNotComment(p: string, k: string, v: string)
    requires p != [] && AllSpace(p) && '=' !in k
    ensures ParseLine(p + "#" + k + "=" + v) == Some((Trim("#" + k), Trim(v)))
    ensures Trim("#" + k) != [] && Trim("#" + k)[0] == '#'
  {
    var key := p + "#" + k;
    NoEqualsInSpace(p);
    assert key[0] == p[0];
    KeyValueLine(key, v);
    assert key == p + ("#" + k);
    TrimSkipsLeading(p, "#" + k);
    TrimKeepsFirst("#" + k);
  }

  /** The emptiness test looks at the untrimmed key: when only white space
      `p` precedes the first `=`, the key is truthy and the variable with the
      empty name is set. */
  lemma BlankKeyWritesEmptyName(p: string, v: string)
    requires p != [] && AllSpace(p)
    ensures ParseLine(p + "=" + v) == Some(("", Trim(v)))
  {
    assert IsSpace(p[0]);
    NoEqualsInSpace(p);
    KeyValueLine(p, v);
    TrimMeaning(p);
  }

  /** The file is split on `'\n'` only, so a line of a file with `\r\n` line
      ends carries a trailing `'\r'`; the line is parsed as if it were not
      there, since `trim` removes it from both the test and the value. */
  lemma CarriageReturnIgnored(line: string)
    ensures ParseLine(line + "\r") == ParseLine(line)
  {
    AcceptedWithCarriageReturn(line);
    if Accepted(line) {
      AcceptedLineWithCarriageReturn(line);
    } else {
      ParseLineMeaning(line);
      ParseLineMeaning(line + "\r");
    }
  }

  /** An accepted line assigns the same name and value with a trailing `'\r'`. */
  lemma AcceptedLineWithCarriageReturn(line: string)
    requires Accepted(line)
    ensures ParseLine(line + "\r") == ParseLine(line)
  {
    var i := IndexOf(line, '=').value;
    IndexOfMeaning(line, '=');
    SliceAppend(line, "\r", i);
    SliceAppend(line, "\r", i + 1);
    TrimSkipsTrailing(line[i + 1..], "\r");
    AcceptedWithCarriageReturn(line);
    ParseLineMeaning(line);
    ParseLineMeaning(line + "\r");
  }

  /** A trailing `'\r'` changes neither whether a line is acted on nor where
      its first `=` is. */
  lemma AcceptedWithCarriageReturn(line: string)
    ensures Accepted(line + "\r") <==> Accepted(line)
    ensures '=' in line ==> IndexOf(line + "\r", '=') == IndexOf(line, '=')
  {
    var crl := line + "\r";
    IndexOfMeaning(line, '=');
    IndexOfMeaning(crl, '=');
    assert IsSpace('\r');
    assert AllSpace(crl) <==> AllSpace(line) by {
      assert forall i :: 0 <= i < |line| ==> crl[i] == line[i];
    }
    if line != [] {
      assert crl[0] == line[0];
    }
    if '=' in line {
      IndexOfAppend(line, "\r", '=');
    } else {
      assert '=' !in crl;
    }
  }

  /** What each line assigns, in file order. */
  function Assignments(lines: seq<string>): seq<Option<(string, string)>> {
    seq(|lines|, j requires 0 <= j < |lines| => ParseLine(lines[j]))
  }

  /** One assignment's effect on the environment (test-ai.js:12). */
  function Assign(env: Env, a: Option<(string, string)>): Env {
    match a
    case None => env
    case Some((name, value)) => env[name := value]
  }

  /** The environment after the assignments have taken effect in order. */
  function AssignAll(env: Env, asg: seq<Option<(string, string)>>): Env
    decreases |asg|
  {
    if asg == [] then env
    else Assign(AssignAll(env, asg[..|asg| - 1]), asg[|asg| - 1])
  }

  /** The environment after the lines have taken effect in order. */
  function ApplyLines(env: Env, lines: seq<string>): Env {
    AssignAll(env, Assignments(lines))
  }

  /** The whole loader: the environment after reading file text `text`. */
  function LoadText(env: Env, text: string): Env {
    ApplyLines(env, Split(text, '\n'))
  }

  /** The names the assignments write. */
  function Names(asg: seq<Option<(string, string)>>): set<string> {
    set j | 0 <= j < |asg| && asg[j].Some? :: asg[j].value.0
  }

  /** The names some line of `lines` assigns. */
  function WrittenNames(lines: seq<string>): set<string> {
    Names(Assignments(lines))
  }

  /** The assignments add exactly the names they write. */
  lemma {:induction false} AssignAllNames(env: Env, asg: seq<Option<(string, string)>>)
    ensures AssignAll(env, asg).Keys == env.Keys + Names(asg)
    decreases |asg|
  {
    if asg != [] {
      var init := asg[..|asg| - 1];
      AssignAllNames(env, init);
      var last := asg[|asg| - 1];
      var extra: set<string> := if last.Some? then {last.value.0} else {};
      forall n | n in Names(asg) ensures n in Names(init) + extra {
        var j :| 0 <= j < |asg| && asg[j].Some? && asg[j].value.0 == n;
        if j < |init| { assert init[j] == asg[j]; }
      }
      forall n | n in Names(init) ensures n in Names(asg) {
        var j :| 0 <= j < |init| && init[j].Some? && init[j].value.0 == n;
        assert init[j] == asg[j];
      }
      assert Names(asg) == Names(init) + extra;
    }
  }

  /** A name no assignment writes keeps its entry, or its absence. */
  lemma {:induction false} AssignAllUntouched(env: Env, asg: seq<Option<(string, string)>>, name: string)
    requires forall j :: 0 <= j < |asg| ==> asg[j] == None || asg[j].value.0 != name
    ensures name in AssignAll(env, asg) <==> name in env
    ensures name in env ==> AssignAll(env, asg)[name] == env[name]
    decreases |asg|
  {
    if asg != [] {
      var init := asg[..|asg| - 1];
      assert forall j :: 0 <= j < |init| ==> init[j] == asg[j];
      AssignAllUntouched(env, init, name);
    }
  }

  /** The last assignment to a name decides its value. */
  lemma {:induction false} AssignAllLast(env: Env, asg: seq<Option<(string, string)>>, j: nat)
    requires j < |asg| && asg[j].Some?
    requires forall k :: j < k < |asg| ==> asg[k] == None || asg[k].value.0 != asg[j].value.0
    ensures asg[j].value.0 in AssignAll(env, asg)
    ensures AssignAll(env, asg)[asg[j].value.0] == asg[j].value.1
    decreases |asg|
  {
    var init := asg[..|asg| - 1];
    if j < |asg| - 1 {
      assert forall k :: 0 <= k < |init| ==> init[k] == asg[k];
      AssignAllLast(env, init, j);
    }
  }

  /** Reading the file adds exactly the names its lines write. */
  lemma ApplyLinesNames(env: Env, lines: seq<string>)
    ensures ApplyLines(env, lines).Keys == env.Keys + WrittenNames(lines)
  {
    AssignAllNames(env, Assignments(lines));
  }

  /** A variable no line assigns keeps whatever it had before: present
      exactly when it was, with the same value. */
  lemma UntouchedKept(env: Env, lines: seq<string>, name: string)
    requires forall j :: 0 <= j < |lines| ==> !Writes(lines[j], name)
    ensures name in ApplyLines(env, lines) <==> name in env
    ensures name in env ==> ApplyLines(env, lines)[name] == env[name]
  {
    var asg := Assignments(lines);
    forall j | 0 <= j < |asg| ensures asg[j] == None || asg[j].value.0 != name {
      assert !Writes(lines[j], name);
    }
    AssignAllUntouched(env, asg, name);
  }

  /** When line `j` is the last one to assign its variable, that variable
      ends up with line `j`'s value, whatever came before it. */
  lemma LastWriteWins(env: Env, lines: seq<string>, j: nat)
    requires j < |lines| && ParseLine(lines[j]).Some?
    requires forall k :: j < k < |lines| ==> !Writes(lines[k], ParseLine(lines[j]).value.0)
    ensures ParseLine(lines[j]).value.0 in ApplyLines(env, lines)
    ensures ApplyLines(env, lines)[ParseLine(lines[j]).value.0] == ParseLine(lines[j]).value.1
  {
    var asg := Assignments(lines);
    var name := ParseLine(lines[j]).value.0;
    assert asg[j] == ParseLine(lines[j]);
    forall k | j < k < |asg| ensures asg[k] == None || asg[k].value.0 != name {
      assert !Writes(lines[k], name);
    }
    AssignAllLast(env, asg, j);
  }

  /** Of two lines assigning the same variable, the second wins
      (`A=1` then `A=2` leaves `A` set to 2). */
  lemma LaterAssignmentWins(env: Env, first: string, second: string)
    requires '\n' !in first && '\n' !in second
    requires ParseLine(second).Some?
    ensures ParseLine(second).value.0 in LoadText(env, first + "\n" + second)
    ensures LoadText(env, first + "\n" + second)[ParseLine(second).value.0] == ParseLine(second).value.1
  {
    var lines := [first, second];
    assert Join(lines, '\n') == first + "\n" + second;
    SplitJoin(lines, '\n');
    assert Split(first + "\n" + second, '\n') == lines;
    LastWriteWins(env, lines, 1);
    assert LoadText(env, first + "\n" + second) == ApplyLines(env, lines);
  }

  /** `A=b=c` sets `A` to `b=c`. */
  lemma ExampleEqualsInValue()
    ensures ParseLine("A=b=c") == Some(("A", "b=c"))
  {
    assert "A" + "=" + "b" + "=" + "c" == "A=b=c";
    EqualsKeptInValue("A", "b", "c");
    assert "b" + "=" + "c" == "b=c";
    TrimKeeps("A");
    TrimKeeps("b=c");
  }

  /** `KEY=` sets `KEY` to the empty string. */
  lemma ExampleEmptyValue()
    ensures ParseLine("KEY=") == Some(("KEY", ""))
  {
    assert "KEY" + "=" == "KEY=";
    EmptyValueAccepted("KEY");
    TrimKeeps("KEY");
  }

  /** `  #X=1` is not a comment: it sets `#X` to `1`. */
  lemma ExampleIndentedHash()
    ensures ParseLine("  #X=1") == Some(("#X", "1"))
  {
    assert "  " + "#" + "X" + "=" + "1" == "  #X=1";
    IndentedHashNotComment("  ", "X", "1");
    assert "#" + "X" == "#X";
    TrimKeeps("#X");
    TrimKeeps("1");
  }

  /** `  =v` sets the variable with the empty name to `v`. */
  lemma ExampleBlankKey()
    ensures ParseLine("  =v") == Some(("", "v"))
  {
    assert "  " + "=" + "v" == "  =v";
    BlankKeyWritesEmptyName("  ", "v");
    TrimKeeps("v");
  }

  /** Loading `A=1` then `A=2` leaves `A` set to `2`. */
  lemma ExampleLaterWins(env: Env)
    ensures "A" in LoadText(env, "A=1\nA=2") && LoadText(env, "A=1\nA=2")["A"] == "2"
  {
    assert "A" + "=" + "2" == "A=2";
    KeyValueLine("A", "2");
    TrimKeeps("A");
    TrimKeeps("2");
    assert "A=1" + "\n" + "A=2" == "A=1\nA=2";
    LaterAssignmentWins(env, "A=1", "A=2");
  }

  /** The process environment, which the loader updates in place. */
  class Environment {
    var vars: Env

    constructor (initial: Env)
      ensures vars == initial
    {
      vars := initial;
    }

    /** The `forEach` over the lines of the file text (test-ai.js:8-15). */
    method Load(text: string)
      modifies this
      ensures vars == LoadText(old(vars), text)
    {
      var lines := Split(text, '\n');
      ghost var asg := Assignments(lines);
      for i := 0 to |lines|
        invariant vars == AssignAll(old(vars), asg[..i])
      {
        assert asg[..i + 1][..i] == asg[..i];
        assert asg[i] == ParseLine(lines[i]);
        match ParseLine(lines[i])
        case Some((name, value)) =>
          vars := vars[name := value];
        case None =>
      }
      assert asg[..|lines|] == asg;
    }
  }
}
