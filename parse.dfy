/**
  The tokenizer `parse_input`: a command line becomes an array of stage
  records (`FunctionsCommand`), one per `|`-separated field, each holding a
  NULL-terminated argument vector built from the field's blank-separated
  words, with `bash` put in front of a leading `.sh` script.
*/
module Parse {
  import opened Wrappers
  import opened Strtok

  /** The interpreter inserted in front of a script. */
  const Interpreter: string := "bash"

  /** A first word that is run through the interpreter: longer than 3 and ending in `.sh`. */
  predicate IsScript(word: string)
  {
    |word| > 3 && word[|word| - 3] == '.' && word[|word| - 2] == 's' && word[|word| - 1] == 'h'
  }

  /**
    The argument vector of a stage whose words are `words`: the words
    themselves, with `bash` inserted first when the first word is a script.
    Only the first word is looked at; every word is kept, in order.
  */
  function ArgVector(words: seq<string>): seq<string>
  {
    if |words| > 0 && IsScript(words[0]) then [Interpreter] + words else words
  }

  /**
    One stage record. `fAndVal` is the argument array (None is NULL),
    `totalArgs` the number of arguments in it, `command` the program to run
    (None while it is unset).
  */
  datatype Stage = Stage(command: Option<string>, fAndVal: seq<Option<string>>, totalArgs: nat)

  /** `st` is the record `parse_input` builds for the `|`-field `field`. */
  predicate BuiltFrom(st: Stage, field: string)
  {
    var words := Split(field, BlankDelims);
    var argv := ArgVector(words);
    // the array has args_count + 2 slots and the arguments plus NULL fit in it
    && |st.fAndVal| == |words| + 2
    && st.totalArgs == |argv|
    && st.totalArgs < |st.fAndVal|
    && (forall k :: 0 <= k < |argv| ==> st.fAndVal[k] == Some(argv[k]))
    && st.fAndVal[st.totalArgs] == None
    && st.command == (if st.totalArgs > 0 then st.fAndVal[0] else None)
  }

  /**
    Build the record of one `|`-field: count its words with a first strtok_r
    pass, allocate args_count + 2 slots, copy the arguments in with a second
    pass, close the vector with NULL and set the program when there is one.
  */
  method ParseField(field: string) returns (st: Stage)
    ensures BuiltFrom(st, field)
  {
    var argsCount := CountTokens(field, BlankDelims);
    var fAndVal := new Option<string>[argsCount + 2](_ => None);
    var totalArgs := CopyArgs(field, fAndVal);
    fAndVal[totalArgs] := None;
    var command := None;
    if totalArgs > 0 {
      command := fAndVal[0];
    }
    st := Stage(command, fAndVal[..], totalArgs);
  }

  /** The argument array once `argv` is stored in its first slots: the other slots keep `orig`. */
  ghost function Slots(argv: seq<string>, orig: seq<Option<string>>): seq<Option<string>>
    requires |argv| <= |orig|
  {
    seq(|orig|, k requires 0 <= k < |orig| => if k < |argv| then Some(argv[k]) else orig[k])
  }

  /** Storing the next argument in the first free slot. */
  lemma SlotsPush(argv: seq<string>, w: string, orig: seq<Option<string>>)
    requires |argv| < |orig|
    ensures Slots(argv, orig)[|argv| := Some(w)] == Slots(argv + [w], orig)
  {
  }

  /**
    The second strtok_r pass over a field: store each word in the next
    slot of `fAndVal`, with `bash` stored first when the first word is a
    script. Returns the number of slots filled.
  */
  method CopyArgs(field: string, fAndVal: array<Option<string>>) returns (totalArgs: nat)
    requires fAndVal.Length == |Split(field, BlankDelims)| + 2
    modifies fAndVal
    ensures totalArgs == |ArgVector(Split(field, BlankDelims))| < fAndVal.Length
    ensures forall k :: 0 <= k < totalArgs ==> fAndVal[k] == Some(ArgVector(Split(field, BlankDelims))[k])
    ensures forall k :: totalArgs <= k < fAndVal.Length ==> fAndVal[k] == old(fAndVal[k])
  {
    ghost var words := Split(field, BlankDelims);
    ghost var orig := fAndVal[..];
    totalArgs := 0;
    var isShellScript := false;
    ghost var copied: seq<string> := [];
    ghost var argv: seq<string> := [];
    assert field[0..] == field;
    var word, save := NextToken(field, BlankDelims, 0);
    while word.Some?
      invariant save <= |field|
      invariant words == copied + (if word.Some? then [word.value] else []) + Split(field[save..], BlankDelims)
      invariant word.None? ==> Split(field[save..], BlankDelims) == []
      invariant isShellScript == (copied != [] && IsScript(copied[0]))
      invariant argv == (if isShellScript then [Interpreter] else []) + copied
      invariant totalArgs == |argv| <= |copied| + 1
      invariant fAndVal[..] == Slots(argv, orig)
      decreases |field| - save, word.Some?
    {
      if totalArgs == 0 {
        if IsScript(word.value) {
          isShellScript := true;
          SlotsPush(argv, Interpreter, orig);
          fAndVal[totalArgs] := Some(Interpreter);
          totalArgs := totalArgs + 1;
          argv := [Interpreter];
        }
      }
      SlotsPush(argv, word.value, orig);
      fAndVal[totalArgs] := Some(word.value);
      totalArgs := totalArgs + 1;
      argv := argv + [word.value];
      ghost var done, tok, pending := copied, word.value, Split(field[save..], BlankDelims);
      copied := copied + [word.value];
      word, save := NextToken(field, BlankDelims, save);
      Consume(words, done, tok, pending, if word.Some? then [word.value] else [], Split(field[save..], BlankDelims));
    }
    assert copied == words;
    assert forall k :: 0 <= k < fAndVal.Length ==> fAndVal[k] == Slots(argv, orig)[k];
  }

  /**
    `parse_input`: count the `|`-fields, allocate that many records, then
    build one record per field. The second pass meets exactly as many
    fields as the first counted, so every record written is in bounds and
    every record is written.
  */
  method ParseInput(input: string) returns (cmds: array<Stage>, count: nat)
    ensures fresh(cmds)
    ensures count == cmds.Length == |Split(input, PipeDelims)|
    ensures forall k :: 0 <= k < count ==> BuiltFrom(cmds[k], Split(input, PipeDelims)[k])
  {
    ghost var fields := Split(input, PipeDelims);
    var cmdCapacity := CountTokens(input, PipeDelims);
    cmds := new Stage[cmdCapacity];
    assert input[0..] == input;
    var field, save := NextToken(input, PipeDelims, 0);
    var i := 0;
    ghost var built: seq<string> := [];
    ghost var stages: seq<Stage> := [];
    while field.Some?
      invariant save <= |input|
      invariant fields == built + (if field.Some? then [field.value] else []) + Split(input[save..], PipeDelims)
      invariant field.None? ==> Split(input[save..], PipeDelims) == []
      invariant i == |built| <= |fields| == cmds.Length
      invariant cmds[..i] == stages && |stages| == i
      invariant forall k :: 0 <= k < i ==> BuiltFrom(stages[k], built[k])
      decreases |input| - save, field.Some?
    {
      var st := ParseField(field.value);
      cmds[i] := st;
      stages := stages + [st];
      i := i + 1;
      ghost var done, tok, pending := built, field.value, Split(input[save..], PipeDelims);
      built := built + [field.value];
      field, save := NextToken(input, PipeDelims, save);
      Consume(fields, done, tok, pending, if field.Some? then [field.value] else [], Split(input[save..], PipeDelims));
    }
    assert built == fields;
    assert forall k :: 0 <= k < i ==> cmds[k] == cmds[..i][k];
    count := cmdCapacity;
  }

  // ---------------------------------------------------------------------------
  // What a record says about its field

  /**
    A record has a program exactly when its field has a word. The program is
    `bash` when the first word is a script and that first word otherwise;
    under the script rule the script itself is the first argument.
  */
  lemma StageProgram(st: Stage, field: string)
    requires BuiltFrom(st, field)
    ensures var words := Split(field, BlankDelims);
      && (st.command.Some? <==> words != [])
      && (words != [] && IsScript(words[0]) ==>
            st.command == Some(Interpreter) && st.fAndVal[1] == Some(words[0]) && st.totalArgs == |words| + 1)
      && (words != [] && !IsScript(words[0]) ==>
            st.command == Some(words[0]) && st.totalArgs == |words|)
  {
    var words := Split(field, BlankDelims);
    if words != [] && IsScript(words[0]) {
      assert ArgVector(words)[1] == words[0];
    }
  }

  /**
    A field of blanks only (the middle of `ls |   | wc`) still gives a
    record: no arguments, NULL in the first slot and no program.
  */
  lemma BlankFieldStage(st: Stage, field: string)
    requires forall k :: 0 <= k < |field| ==> field[k] in BlankDelims
    requires BuiltFrom(st, field)
    ensures st.totalArgs == 0 && |st.fAndVal| == 2 && st.fAndVal[0] == None && st.command == None
  {
    SplitOnlyDelims(field, BlankDelims);
    assert st.fAndVal[0] == None;
  }

  /** The script rule on single words: `a.sh` is run by bash, `.sh` and `x.shx` are not. */
  lemma ScriptRuleExamples()
    ensures ArgVector(["a.sh"]) == ["bash", "a.sh"]
    ensures ArgVector([".sh"]) == [".sh"]
    ensures ArgVector(["x.shx"]) == ["x.shx"]
    ensures ArgVector(["ls", "a.sh"]) == ["ls", "a.sh"]
  {
    assert "a.sh"[1..] == ".sh";
    assert "x.shx"[2..] != ".sh" by { assert "x.shx"[2..][2] == 'x'; }
  }

  /** An empty field between two `|` is dropped: `ls || wc` has two stages. */
  lemma EmptyFieldExample()
    ensures Split("ls || wc", PipeDelims) == ["ls ", " wc"]
  {
    SplitSingle("ls ", PipeDelims);
    SplitSingle(" wc", PipeDelims);
    EmptyFieldDropped("ls ", '|', " wc", PipeDelims);
    assert "ls || wc" == "ls " + ['|', '|'] + " wc";
  }

  lemma ThreeFields(a: string, b: string, c: string)
    requires IsToken(a, PipeDelims) && IsToken(b, PipeDelims) && IsToken(c, PipeDelims)
    ensures Split(a + ['|'] + (b + ['|'] + c), PipeDelims) == [a, b, c]
  {
    SplitSingle(a, PipeDelims);
    SplitSingle(b, PipeDelims);
    SplitSingle(c, PipeDelims);
    SplitAppend(b, '|', c, PipeDelims);
    SplitAppend(a, '|', b + ['|'] + c, PipeDelims);
  }

  /** A field of blanks is kept: `ls |   | wc` has three stages. */
  lemma BlankFieldExample()
    ensures Split("ls |   | wc", PipeDelims) == ["ls ", "   ", " wc"]
  {
    ThreeFields("ls ", "   ", " wc");
    assert "ls |   | wc" == "ls " + ['|'] + ("   " + ['|'] + " wc");
  }

  /** A leading and a trailing `|` are dropped: `|ls|` has one stage. */
  lemma OuterPipesExample()
    ensures Split("|ls|", PipeDelims) == ["ls"]
  {
    SplitSingle("ls", PipeDelims);
    OuterDelimsDropped("ls", '|', PipeDelims);
    assert "|ls|" == ['|'] + "ls" + ['|'];
  }
}
