/** The response modes of the job endpoint: the bash script `writeBash`
    assembles, and the choice `getJobModeWriter` makes from the `mode`
    query parameter. Writing to the HTTP response is left out; the model
    stops at the string handed to `w.Write`. */
module Mode {
  import opened Jobs

  /** The first line of every script. */
  const BashHeader := "#!/usr/bin/env bash"

  const Newline := '\n'

  /** The array `writeBash` fills: the header, then each command's text in
      order. */
  function ScriptLines(commands: seq<Command>): (lines: seq<string>)
    ensures |lines| == |commands| + 1
    ensures lines[0] == BashHeader
    ensures forall i | 0 <= i < |commands| :: lines[i + 1] == commands[i].script
  {
    [BashHeader] + seq(|commands|, i requires 0 <= i < |commands| => commands[i].script)
  }

  /** `strings.Join(parts, sep)`. */
  function Join(parts: seq<string>, sep: string): (s: string)
    ensures |parts| > 0 ==> parts[0] <= s
    decreases |parts|
  {
    if |parts| == 0 then ""
    else if |parts| == 1 then parts[0]
    else parts[0] + sep + Join(parts[1..], sep)
  }

  /** The script text `writeBash` writes. */
  function BashScript(commands: seq<Command>): (s: string)
    ensures BashHeader <= s
  {
    Join(ScriptLines(commands), [Newline])
  }

  // ---------------------------------------------------------------------
  // Reading a script back line by line.

  /** The pieces of `s` between occurrences of `c` (`strings.Split` with a
      one-character separator); always at least one piece. */
  function Split(s: string, c: char): (parts: seq<string>)
    ensures |parts| >= 1
    ensures forall i | 0 <= i < |parts| :: c !in parts[i]
    decreases |s|
  {
    if |s| == 0 then [""]
    else
      var rest := Split(s[1..], c);
      if s[0] == c then [""] + rest
      else [[s[0]] + rest[0]] + rest[1..]
  }

  /** A piece without the separator is glued to the first piece of what
      follows it. */
  lemma {:induction false} SplitPrefix(x: string, y: string, c: char)
    requires c !in x
    ensures Split(x + y, c) == [x + Split(y, c)[0]] + Split(y, c)[1..]
    decreases |x|
  {
    if |x| > 0 {
      assert (x + y)[0] == x[0];
      assert (x + y)[1..] == x[1..] + y;
      SplitPrefix(x[1..], y, c);
      assert [x[0]] + (x[1..] + Split(y, c)[0]) == x + Split(y, c)[0];
    } else {
      assert x + y == y;
      assert x + Split(y, c)[0] == Split(y, c)[0];
      assert Split(y, c) == [Split(y, c)[0]] + Split(y, c)[1..];
    }
  }

  /** Splitting undoes joining, for pieces that do not contain the
      separator. */
  lemma {:induction false} SplitJoin(parts: seq<string>, c: char)
    requires |parts| >= 1
    requires forall i | 0 <= i < |parts| :: c !in parts[i]
    ensures Split(Join(parts, [c]), c) == parts
    decreases |parts|
  {
    if |parts| == 1 {
      SplitPrefix(parts[0], "", c);
      assert parts[0] + "" == parts[0];
    } else {
      var rest := Join(parts[1..], [c]);
      SplitJoin(parts[1..], c);
      assert parts[0] + [c] + rest == parts[0] + ([c] + rest);
      SplitPrefix(parts[0], [c] + rest, c);
      assert ([c] + rest)[0] == c && ([c] + rest)[1..] == rest;
      assert Split([c] + rest, c) == [""] + parts[1..];
      assert parts[0] + "" == parts[0];
      assert parts == [parts[0]] + parts[1..];
    }
  }

  /** Joining undoes splitting, for every string. */
  lemma {:induction false} JoinSplit(s: string, c: char)
    ensures Join(Split(s, c), [c]) == s
    decreases |s|
  {
    if |s| > 0 {
      var rest := Split(s[1..], c);
      JoinSplit(s[1..], c);
      if s[0] == c {
        assert Join([""] + rest, [c]) == "" + [c] + Join(rest, [c]) by {
          assert ([""] + rest)[1..] == rest;
        }
        assert s == [s[0]] + s[1..];
      } else {
        var parts := [[s[0]] + rest[0]] + rest[1..];
        assert parts[1..] == rest[1..];
        if |rest| == 1 {
          assert rest == [rest[0]];
        } else {
          assert Join(rest, [c]) == rest[0] + [c] + Join(rest[1..], [c]);
        }
        assert s == [s[0]] + s[1..];
      }
    }
  }

  /** Read back line by line, the script is the header followed by each
      command's text in order, provided no command spans several lines. */
  lemma BashScriptLines(commands: seq<Command>)
    requires forall i | 0 <= i < |commands| :: Newline !in commands[i].script
    ensures Split(BashScript(commands), Newline) == ScriptLines(commands)
    ensures |Split(BashScript(commands), Newline)| == |commands| + 1
  {
    var lines := ScriptLines(commands);
    assert Newline !in BashHeader;
    forall i | 0 <= i < |lines| ensures Newline !in lines[i] {
      if i > 0 { assert lines[i] == commands[i - 1].script; }
    }
    SplitJoin(lines, Newline);
  }

  /** An empty command list gives exactly the header. */
  lemma EmptyScriptIsHeader()
    ensures BashScript([]) == BashHeader
  {
    assert ScriptLines([]) == [BashHeader];
  }

  /** Two commands give the header and their texts on three lines. */
  lemma TwoCommandScript()
    ensures BashScript([Command("c1", "echo hello"), Command("c2", "echo world")]) ==
            "#!/usr/bin/env bash\necho hello\necho world"
  {
    var cs := [Command("c1", "echo hello"), Command("c2", "echo world")];
    assert ScriptLines(cs) == [BashHeader, "echo hello", "echo world"];
    assert Join(ScriptLines(cs)[2..], [Newline]) == "echo world";
  }

  // ---------------------------------------------------------------------
  // Choosing the writer.

  /** The two response writers. */
  datatype Writer = BashWriter | JsonWriter

  /** `unicode.ToLower` on ASCII letters; every other character is left as
      it is. */
  function LowerChar(ch: char): char
  {
    if 'A' <= ch <= 'Z' then (ch as int + 32) as char else ch
  }

  /** `strings.ToLower`, character by character. */
  function Lower(s: string): (t: string)
    ensures |t| == |s|
    ensures forall i | 0 <= i < |s| :: t[i] == LowerChar(s[i])
  {
    seq(|s|, i requires 0 <= i < |s| => LowerChar(s[i]))
  }

  /** `getJobModeWriter`: the bash writer for "bash" in any letter case,
      the JSON writer for every other value, the empty one included. */
  function ChooseWriter(mode: string): Writer
  {
    if Lower(mode) == "bash" then BashWriter else JsonWriter
  }

  /** Either case of an ASCII letter. */
  predicate SameLetter(ch: char, lower: char)
    requires 'a' <= lower <= 'z'
  {
    ch == lower || ch as int == lower as int - 32
  }

  /** The bash writer is chosen exactly for the sixteen spellings of
      "bash" that differ only in letter case. */
  lemma ChooseWriterIsBashIff(mode: string)
    ensures ChooseWriter(mode) == BashWriter <==>
              |mode| == 4 && SameLetter(mode[0], 'b') && SameLetter(mode[1], 'a') &&
              SameLetter(mode[2], 's') && SameLetter(mode[3], 'h')
  {
    if |mode| == 4 && Lower(mode) != "bash" {
      var t := Lower(mode);
      assert t[0] != 'b' || t[1] != 'a' || t[2] != 's' || t[3] != 'h';
    }
  }

  /** The spellings the endpoint sees in practice. */
  lemma ChooseWriterExamples()
    ensures ChooseWriter("bash") == BashWriter
    ensures ChooseWriter("BASH") == BashWriter
    ensures ChooseWriter("Bash") == BashWriter
    ensures ChooseWriter("") == JsonWriter
    ensures ChooseWriter("json") == JsonWriter
    ensures ChooseWriter("bash ") == JsonWriter
  {
    ChooseWriterIsBashIff("bash");
    ChooseWriterIsBashIff("BASH");
    ChooseWriterIsBashIff("Bash");
    ChooseWriterIsBashIff("json");
  }
}
