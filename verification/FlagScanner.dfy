/** Which argument lists the read-only classifier lets through: the loop of
    `_codex_flags_all_safe` in `src/salient_core/codex.py:294-323`. */
module FlagScanner {

  /** The safe flags of one program; true for a flag that takes a value. */
  type Table = map<string, bool>

  // ---- One token ----

  /** `tok.partition("=")[0]` and `[2]`. */
  function FlagPart(tok: string): string {
    if tok == "" || tok[0] == '=' then "" else [tok[0]] + FlagPart(tok[1..])
  }

  function InlineValue(tok: string): string {
    if tok == "" then "" else if tok[0] == '=' then tok[1..] else InlineValue(tok[1..])
  }

  predicate Valueless(table: Table, ch: char) {
    ['-', ch] in table && !table[['-', ch]]
  }

  datatype Shape = Terminator | Complete | NeedsValue | Unknown

  /** What a token in option position is. */
  function ShapeOf(table: Table, tok: string): Shape {
    var flag := FlagPart(tok);
    if tok == "--" then Terminator
    else if !("-" <= tok) || tok == "-" then Complete
    else if flag in table then (if table[flag] && InlineValue(tok) == "" then NeedsValue else Complete)
    else if !("--" <= flag) && |flag| > 2 then
      if flag[..2] in table && table[flag[..2]] then Complete
      else if forall i | 1 <= i < |flag| :: Valueless(table, flag[i]) then Complete
      else Unknown
    else Unknown
  }

  // ---- The language of safe argument lists ----

  predicate Accepts(table: Table, argv: seq<string>) {
    argv != [] ==>
      match ShapeOf(table, argv[0])
      case Terminator => true
      case Complete => Accepts(table, argv[1..])
      case NeedsValue => |argv| >= 2 && Accepts(table, argv[2..])
      case Unknown => false
  }

  /** Some `--` stands in option position. */
  predicate Terminated(table: Table, argv: seq<string>) {
    argv != [] &&
      match ShapeOf(table, argv[0])
      case Terminator => true
      case Complete => Terminated(table, argv[1..])
      case NeedsValue => |argv| >= 2 && Terminated(table, argv[2..])
      case Unknown => false
  }

  method FlagsAllSafe(table: Table, argv: seq<string>) returns (safe: bool)
    ensures safe <==> Accepts(table, argv)
  {
    var i := 0;
    var expectValue := false;
    while i < |argv|
      invariant 0 <= i <= |argv|
      invariant Accepts(table, argv) <==>
                if !expectValue then Accepts(table, argv[i..]) else i < |argv| && Accepts(table, argv[i + 1..])
    {
      var tok := argv[i];
      ghost var rest := argv[i..];
      assert rest[1..] == argv[i + 1..];
      assert |rest| >= 2 ==> rest[2..] == argv[i + 2..];
      i := i + 1;
      if expectValue {
        expectValue := false;
      } else if tok == "--" {
        return true;
      } else if !("-" <= tok) || tok == "-" {
        // a path, a pattern or standard input
      } else {
        var flag, inlineValue := FlagPart(tok), InlineValue(tok);
        if flag in table {
          expectValue := table[flag] && inlineValue == "";
        } else if !("--" <= flag) && |flag| > 2 && flag[..2] in table && table[flag[..2]] {
          // the value is glued to the flag
        } else if !("--" <= flag) && |flag| > 2 && forall k | 1 <= k < |flag| :: Valueless(table, flag[k]) {
          // a bundle of valueless flags
        } else {
          return false;
        }
      }
    }
    return !expectValue;
  }

  // ---- Properties of the language ----

  /** After an accepted list, what follows is judged on its own, unless a `--` in
      option position has already ended the options: then anything goes. */
  lemma {:induction false} ConcatenationExactly(table: Table, a: seq<string>, b: seq<string>)
    requires Accepts(table, a)
    ensures Accepts(table, a + b) <==> Terminated(table, a) || Accepts(table, b)
    decreases |a|
  {
    if a == [] {
      assert a + b == b;
    } else {
      assert (a + b)[0] == a[0];
      match ShapeOf(table, a[0]) {
        case Complete =>
          assert (a + b)[1..] == a[1..] + b;
          ConcatenationExactly(table, a[1..], b);
        case NeedsValue =>
          assert (a + b)[2..] == a[2..] + b;
          ConcatenationExactly(table, a[2..], b);
        case Terminator =>
        case Unknown =>
      }
    }
  }

  /** Acceptance is closed under concatenation. */
  lemma AcceptedConcatenate(table: Table, a: seq<string>, b: seq<string>)
    requires Accepts(table, a) && Accepts(table, b)
    ensures Accepts(table, a + b)
  {
    ConcatenationExactly(table, a, b);
  }

  // ---- What each kind of token does, in so many words ----

  /** A token is its flag part, and after the first `=`, if there is one, its value. */
  lemma {:induction false} PartsOfToken(name: string, value: string)
    requires '=' !in name
    ensures FlagPart(name) == name && InlineValue(name) == ""
    ensures FlagPart(name + "=" + value) == name && InlineValue(name + "=" + value) == value
  {
    var tok := name + "=" + value;
    if name != "" {
      assert tok[1..] == name[1..] + "=" + value;
      PartsOfToken(name[1..], value);
    }
  }

  /** After an accepted list without a terminator the next token stands in option
      position: `tok` and what follows it decide. */
  lemma NextToken(table: Table, a: seq<string>, tok: string, rest: seq<string>)
    requires Accepts(table, a) && !Terminated(table, a)
    ensures Accepts(table, a + [tok] + rest) <==> Accepts(table, [tok] + rest)
    ensures ([tok] + rest)[1..] == rest
    ensures rest != [] ==> ([tok] + rest)[2..] == rest[1..]
  {
    assert a + [tok] + rest == a + ([tok] + rest);
    ConcatenationExactly(table, a, [tok] + rest);
  }

  /** A path, a pattern or standard input is passed over; `--` lets everything after
      it through. */
  lemma PositionalsPass(table: Table, a: seq<string>, tok: string, rest: seq<string>)
    requires Accepts(table, a) && !Terminated(table, a)
    ensures tok == "" || tok[0] != '-' || tok == "-" ==> (Accepts(table, a + [tok] + rest) <==> Accepts(table, rest))
    ensures tok == "--" ==> Accepts(table, a + [tok] + rest)
  {
    NextToken(table, a, tok, rest);
  }

  /** A flag in the table passes; if it takes a value, the value is what follows the
      `=`, or else the next token, whatever it is, which has to be there. */
  lemma KnownFlagPasses(table: Table, a: seq<string>, name: string, value: string, rest: seq<string>)
    requires Accepts(table, a) && !Terminated(table, a)
    requires name in table && '=' !in name && |name| >= 2 && name[0] == '-' && name != "--"
    ensures table[name] ==> (Accepts(table, a + [name] + rest) <==> rest != [] && Accepts(table, rest[1..]))
    ensures !table[name] ==> (Accepts(table, a + [name] + rest) <==> Accepts(table, rest))
    ensures !table[name] || value != "" ==>
              (Accepts(table, a + [name + "=" + value] + rest) <==> Accepts(table, rest))
  {
    PartsOfToken(name, value);
    NextToken(table, a, name, rest);
    NextToken(table, a, name + "=" + value, rest);
    assert (name + "=" + value)[0] == '-';
  }

  /** A long flag, or a single short one, that is not in the table refuses the list,
      with or without a value. */
  lemma MissingFlagIsRefused(table: Table, a: seq<string>, name: string, value: string, rest: seq<string>)
    requires Accepts(table, a) && !Terminated(table, a)
    requires name !in table && '=' !in name && name != "--"
    requires |name| >= 2 && name[0] == '-' && (name[1] == '-' || |name| == 2)
    ensures !Accepts(table, a + [name] + rest)
    ensures !Accepts(table, a + [name + "=" + value] + rest)
  {
    PartsOfToken(name, value);
    NextToken(table, a, name, rest);
    NextToken(table, a, name + "=" + value, rest);
    assert (name + "=" + value)[0] == '-';
  }

  /** Several letters behind one dash that are not in the table as they stand pass
      exactly if the first is a flag with a value, glued to it, or all are valueless
      flags. */
  lemma GluedLettersExactly(table: Table, a: seq<string>, letters: string, rest: seq<string>)
    requires Accepts(table, a) && !Terminated(table, a)
    requires |letters| >= 2 && letters[0] != '-' && '=' !in letters && "-" + letters !in table
    ensures Accepts(table, a + ["-" + letters] + rest) <==>
            && (|| (['-', letters[0]] in table && table[['-', letters[0]]])
                || (forall i | 0 <= i < |letters| :: ['-', letters[i]] in table && !table[['-', letters[i]]]))
            && Accepts(table, rest)
  {
    var tok := "-" + letters;
    PartsOfToken(tok, "");
    NextToken(table, a, tok, rest);
    assert tok[..2] == ['-', letters[0]];
    assert (forall i | 1 <= i < |tok| :: Valueless(table, tok[i])) <==>
           (forall i | 0 <= i < |letters| :: Valueless(table, letters[i])) by {
      assert forall i | 0 <= i < |letters| :: tok[i + 1] == letters[i];
      assert forall i | 1 <= i < |tok| :: letters[i - 1] == tok[i];
    }
  }

  /** No unknown flag gets through after an accepted list: a token whose flag part is
      not in the table is let pass exactly if that has several letters behind one
      dash, of which the first is a flag with a value or all are valueless flags. */
  lemma UnknownFlagIsRefused(table: Table, a: seq<string>, tok: string, rest: seq<string>)
    requires Accepts(table, a) && !Terminated(table, a)
    requires tok != "" && tok[0] == '-' && tok != "-" && tok != "--" && FlagPart(tok) !in table
    ensures var flag := FlagPart(tok);
      !Accepts(table, a + [tok] + rest) <==>
        || !Accepts(table, rest)
        || |flag| <= 2 || flag[1] == '-'
        || (!(flag[..2] in table && table[flag[..2]])
            && exists i :: 1 <= i < |flag| && !(['-', flag[i]] in table && !table[['-', flag[i]]]))
  {
    NextToken(table, a, tok, rest);
    assert FlagPart(tok)[0] == '-';
  }

  /** Options end only at a `--`. */
  lemma {:induction false} TerminatedByDashes(table: Table, argv: seq<string>)
    requires Terminated(table, argv)
    ensures "--" in argv && Accepts(table, argv)
  {
    match ShapeOf(table, argv[0]) {
      case Complete => TerminatedByDashes(table, argv[1..]);
      case NeedsValue => TerminatedByDashes(table, argv[2..]);
      case Terminator =>
      case Unknown =>
    }
  }

  /** And every `--` behind an accepted list ends them, unless they have ended before. */
  lemma DashesTerminate(table: Table, a: seq<string>, rest: seq<string>)
    requires Accepts(table, a)
    ensures Terminated(table, a + ["--"] + rest)
    decreases |a|
  {
    var all := a + ["--"] + rest;
    if a == [] {
      assert all[0] == "--";
    } else {
      match ShapeOf(table, a[0]) {
        case Complete =>
          assert all[1..] == a[1..] + ["--"] + rest;
          DashesTerminate(table, a[1..], rest);
        case NeedsValue =>
          assert all[2..] == a[2..] + ["--"] + rest;
          DashesTerminate(table, a[2..], rest);
        case Terminator =>
        case Unknown =>
      }
    }
  }

  function Separately(letters: string): seq<string> {
    if letters == "" then [] else [['-', letters[0]]] + Separately(letters[1..])
  }

  lemma {:induction false} FlagPartOfPlain(s: string)
    requires '=' !in s
    ensures FlagPart(s) == s
  {
    if s != "" {
      FlagPartOfPlain(s[1..]);
    }
  }

  lemma {:induction false} ValuelessRun(table: Table, letters: string, rest: seq<string>)
    requires forall i | 0 <= i < |letters| :: Valueless(table, letters[i]) && letters[i] !in {'-', '='}
    ensures Accepts(table, Separately(letters) + rest) <==> Accepts(table, rest)
  {
    if letters == "" {
      assert Separately(letters) + rest == rest;
    } else {
      var tok := ['-', letters[0]];
      var more := Separately(letters[1..]) + rest;
      FlagPartOfPlain(tok);
      assert ShapeOf(table, tok) == Complete;
      assert Separately(letters) + rest == [tok] + more;
      assert ([tok] + more)[1..] == more;
      ValuelessRun(table, letters[1..], rest);
    }
  }

  /** A bundle of valueless short flags is worth exactly its flags one by one. */
  lemma BundleIsItsFlags(table: Table, letters: string, rest: seq<string>)
    requires |letters| >= 2 && "-" + letters !in table
    requires forall i | 0 <= i < |letters| :: Valueless(table, letters[i]) && letters[i] !in {'-', '='}
    ensures Accepts(table, ["-" + letters] + rest) <==> Accepts(table, Separately(letters) + rest)
  {
    var tok := "-" + letters;
    FlagPartOfPlain(tok);
    assert ShapeOf(table, tok) == Complete by {
      forall i | 1 <= i < |tok| ensures Valueless(table, tok[i]) {
        assert tok[i] == letters[i - 1];
      }
      assert tok[1] == letters[0];
    }
    assert ([tok] + rest)[1..] == rest;
    ValuelessRun(table, letters, rest);
  }
}
