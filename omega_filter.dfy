/** Model of how the Omega file indexer picks and prepares an external
    filter for a file (xapian-applications/omega/index_file.cc, in
    index_mimetype): the lookup of the MIME type in the filter table with
    its wildcard fallbacks, and the expansion of %%, %f and %t in the
    filter's command template.

    Shell escaping (append_filename_argument) and temporary file creation
    (get_tmpfile) are parameters: escape gives the escaped argument without
    the space append_filename_argument puts before it, and tmpfile gives the
    path of a new temporary file with the given leafname. */
module OmegaFilter {

  import opened Common

  /** A filter: its command template and the type of what it outputs. */
  datatype Filter = Filter(cmd: string, outputType: string)

  // ---------------------------------------------------------------------
  // Lookup

  /** The filter table lookup: the exact MIME type; then, if it has a '/',
      the major type with a wildcard subtype, then the wildcard type with
      a wildcard subtype; then the lone wildcard.  The key of
      the entry used, or None when no entry applies. */
  function FindFilter(commands: map<string, Filter>, mimetype: string): (r: Option<string>)
    ensures r.Some? ==> r.value in commands
    ensures mimetype in commands ==> r == Some(mimetype)
    ensures r.Some? && r.value != mimetype ==> mimetype !in commands
    ensures "*" in commands ==> r.Some?
  {
    if mimetype in commands then Some(mimetype)
    else
      var slash := FindFrom(mimetype, '/', 0);
      var wild :=
        if slash == |mimetype| then None
        else if mimetype[..slash + 1] + "*" in commands then Some(mimetype[..slash + 1] + "*")
        else if "*/*" in commands then Some("*/*")
        else None;
      if wild.Some? then wild
      else if "*" in commands then Some("*")
      else None
  }

  /** The keys tried, in order. */
  function Candidates(mimetype: string): seq<string>
  {
    var slash := FindFrom(mimetype, '/', 0);
    [mimetype] + (if slash < |mimetype| then [mimetype[..slash + 1] + "*", "*/*"] else []) + ["*"]
  }

  /** The first of the keys ks that is in the table. */
  function FirstIn(ks: seq<string>, commands: map<string, Filter>): (r: Option<nat>)
    ensures r.Some? ==> r.value < |ks| && ks[r.value] in commands
                        && forall j :: 0 <= j < r.value ==> ks[j] !in commands
    ensures r.None? ==> forall j :: 0 <= j < |ks| ==> ks[j] !in commands
    decreases |ks|
  {
    if ks == [] then None
    else if ks[0] in commands then Some(0)
    else match FirstIn(ks[1..], commands)
      case None => None
      case Some(j) => Some(j + 1)
  }

  /** The lookup takes the first candidate key the table has: the exact
      type before the major-type wildcard, that before the wildcard type
      with a wildcard subtype, and the lone wildcard last. */
  lemma FindFilterFirstCandidate(commands: map<string, Filter>, mimetype: string)
    ensures var ks := Candidates(mimetype);
      FindFilter(commands, mimetype) == match FirstIn(ks, commands) case None => None case Some(j) => Some(ks[j])
  {
    var ks := Candidates(mimetype);
    var slash := FindFrom(mimetype, '/', 0);
    if slash < |mimetype| {
      var w := mimetype[..slash + 1] + "*";
      assert ks == [mimetype, w, "*/*", "*"];
      assert ks[1..] == [w, "*/*", "*"];
      assert ks[1..][1..] == ["*/*", "*"];
      assert ks[1..][1..][1..] == ["*"];
      assert ks[1..][1..][1..][1..] == [];
      if mimetype !in commands {
        assert FirstIn(ks, commands) == match FirstIn(ks[1..], commands) case None => None case Some(j) => Some(j + 1);
        if w !in commands {
          assert FirstIn(ks[1..], commands) == match FirstIn(ks[1..][1..], commands) case None => None case Some(j) => Some(j + 1);
          if "*/*" !in commands {
            assert FirstIn(ks[1..][1..], commands) == match FirstIn(ks[1..][1..][1..], commands) case None => None case Some(j) => Some(j + 1);
          }
        }
      }
    } else {
      assert ks == [mimetype, "*"];
      assert ks[1..] == ["*"];
      assert ks[1..][1..] == [];
    }
  }

  // ---------------------------------------------------------------------
  // Command template expansion

  /** An expanded command template, whether %f or %t was substituted, and
      whether %t was. */
  datatype Expansion = Expansion(text: string, substituted: bool, usesTmp: bool)

  /** e with the text pre put in front. */
  function Prepend(pre: string, e: Expansion): (r: Expansion)
    ensures r.substituted == e.substituted && r.usesTmp == e.usesTmp
  {
    e.(text := pre + e.text)
  }

  /** What %x turns into, followed by the expansion rest of what comes
      after it: %% is %, %f is f, %t is t, any other %x stays. */
  function Splice(x: char, rest: Expansion, f: string, t: string): (r: Expansion)
    ensures rest.usesTmp ==> r.usesTmp
    ensures rest.substituted ==> r.substituted
  {
    if x == '%' then Prepend("%", rest)
    else if x == 'f' then Expansion(f + rest.text, true, rest.usesTmp)
    else if x == 't' then Expansion(t + rest.text, true, true)
    else Prepend(['%', x], rest)
  }

  /** The expansion of a command template s, f and t being the escaped file
      and temporary file names.  A % with a character after it is expanded
      and scanning goes on after that character, so the text put in for %f
      and %t is not looked at again; anything else, a final lone % included,
      is copied. */
  function Expand(s: string, f: string, t: string): (r: Expansion)
    ensures r.usesTmp ==> r.substituted
    decreases |s|
  {
    if s == [] then Expansion([], false, false)
    else if s[0] == '%' && |s| >= 2 then Splice(s[1], Expand(s[2..], f, t), f, t)
    else Prepend([s[0]], Expand(s[1..], f, t))
  }

  /** Putting b and then a before an expansion puts a + b before it. */
  lemma PrependTwice(a: string, b: string, e: Expansion)
    ensures Prepend(a, Prepend(b, e)) == Prepend(a + b, e)
  {
    assert a + (b + e.text) == a + b + e.text;
  }

  /** A stretch without % is copied. */
  lemma {:induction false} ExpandSkip(s: string, i: nat, j: nat, f: string, t: string)
    requires i <= j <= |s|
    requires forall k :: i <= k < j ==> s[k] != '%'
    ensures Expand(s[i..], f, t) == Prepend(s[i..j], Expand(s[j..], f, t))
    decreases j - i
  {
    if i == j {
      assert s[i..j] == [];
    } else {
      var e := Expand(s[j..], f, t);
      ExpandSkip(s, i + 1, j, f, t);
      assert Expand(s[i..], f, t) == Prepend([s[i]], Expand(s[i + 1..], f, t)) by {
        assert s[i..][0] == s[i] != '%';
        assert s[i..][1..] == s[i + 1..];
      }
      PrependTwice([s[i]], s[i + 1..j], e);
      assert [s[i]] + s[i + 1..j] == s[i..j];
    }
  }

  /** A template without a % expands to itself. */
  lemma ExpandNoPercent(s: string, f: string, t: string)
    requires '%' !in s
    ensures Expand(s, f, t) == Expansion(s, false, false)
  {
    ExpandSkip(s, 0, |s|, f, t);
    assert s[0..] == s && s[0..|s|] == s && s[|s|..] == [];
  }

  /** s with each % doubled: how a literal % is written in a template. */
  function DoublePercents(s: string): string
    decreases |s|
  {
    if s == [] then []
    else (if s[0] == '%' then "%%" else [s[0]]) + DoublePercents(s[1..])
  }

  /** Doubling every % gives a template that expands back to the text, with
      nothing substituted. */
  lemma {:induction false} ExpandDoubled(s: string, f: string, t: string)
    ensures Expand(DoublePercents(s), f, t) == Expansion(s, false, false)
    decreases |s|
  {
    if s != [] {
      ExpandDoubled(s[1..], f, t);
      var d := DoublePercents(s);
      if s[0] == '%' {
        assert d == "%%" + DoublePercents(s[1..]);
        assert d[2..] == DoublePercents(s[1..]);
      } else {
        assert d == [s[0]] + DoublePercents(s[1..]);
        assert d[1..] == DoublePercents(s[1..]);
      }
      assert s == [s[0]] + s[1..];
    }
  }

  /** "%%f" is the literal "%f", not a substitution. */
  lemma DoubledPercentBeforeF(f: string, t: string)
    ensures Expand("%%f", f, t) == Expansion("%f", false, false)
  {
    assert DoublePercents("%f") == "%%f" by {
      assert "%f"[1..] == "f";
      assert "f"[1..] == [];
    }
    ExpandDoubled("%f", f, t);
  }

  /** After a %-free text pre: %f is replaced by the escaped file name,
      which is not rescanned even if it holds a %, %t likewise with the
      temporary file name, %% becomes %, and any other %x stays. */
  lemma ExpandSubstitutes(pre: string, x: char, rest: string, f: string, t: string)
    requires '%' !in pre
    ensures var e := Expand(pre + ['%', x] + rest, f, t);
      var r := Expand(rest, f, t);
      && (x == 'f' ==> e == Expansion(pre + f + r.text, true, r.usesTmp))
      && (x == 't' ==> e == Expansion(pre + t + r.text, true, true))
      && (x == '%' ==> e == r.(text := pre + "%" + r.text))
      && (x !in "%ft" ==> e == r.(text := pre + ['%', x] + r.text))
  {
    ExpandFirstPercent(pre, x, rest, f, t);
    PrependSplice(pre, x, Expand(rest, f, t), f, t);
  }

  /** Splice after a prefix pre, case by case. */
  lemma PrependSplice(pre: string, x: char, r: Expansion, f: string, t: string)
    ensures var e := Prepend(pre, Splice(x, r, f, t));
      && (x == 'f' ==> e == Expansion(pre + f + r.text, true, r.usesTmp))
      && (x == 't' ==> e == Expansion(pre + t + r.text, true, true))
      && (x == '%' ==> e == r.(text := pre + "%" + r.text))
      && (x !in "%ft" ==> e == r.(text := pre + ['%', x] + r.text))
  {
    if x == 'f' {
      assert pre + (f + r.text) == pre + f + r.text;
    } else if x == 't' {
      assert pre + (t + r.text) == pre + t + r.text;
    } else if x == '%' {
      assert pre + ("%" + r.text) == pre + "%" + r.text;
    } else {
      assert pre + (['%', x] + r.text) == pre + ['%', x] + r.text;
    }
  }

  /** The text before the first % is copied, then %x is expanded. */
  lemma ExpandFirstPercent(pre: string, x: char, rest: string, f: string, t: string)
    requires '%' !in pre
    ensures Expand(pre + ['%', x] + rest, f, t) == Prepend(pre, Splice(x, Expand(rest, f, t), f, t))
  {
    var s := pre + ['%', x] + rest;
    assert forall k :: 0 <= k < |pre| ==> s[k] == pre[k];
    ExpandSkip(s, 0, |pre|, f, t);
    ExpandPercentAt(s, |pre|, f, t);
    assert s[0..] == s && s[0..|pre|] == pre;
    assert s[|pre| + 2..] == rest;
  }

  /** A lone % at the end stays. */
  lemma ExpandTrailingPercent(pre: string, f: string, t: string)
    requires '%' !in pre
    ensures Expand(pre + "%", f, t) == Expansion(pre + "%", false, false)
  {
    var s := pre + "%";
    ExpandSkip(s, 0, |pre|, f, t);
    assert s[0..] == s && s[0..|pre|] == pre;
    assert s[|pre|..] == "%";
    assert "%"[1..] == [];
  }

  /** One step of the loop: when the next % from pcent has a character
      after it, the expansion of the suffix of s from pcent is the text up
      to that %, then the % and its character expanded, then the expansion
      of the rest. */
  lemma ExpandStep(s: string, pcent: nat, p: nat, f: string, t: string)
    requires pcent <= |s| && p == FindFrom(s, '%', pcent) && p + 1 < |s|
    ensures Expand(s[pcent..], f, t) == Prepend(s[pcent..p], Splice(s[p + 1], Expand(s[p + 2..], f, t), f, t))
  {
    FindFromFirst(s, '%', pcent);
    ExpandSkip(s, pcent, p, f, t);
    ExpandPercentAt(s, p, f, t);
  }

  /** When no % from pcent has a character after it, the rest is copied. */
  lemma ExpandRestCopied(s: string, pcent: nat, f: string, t: string)
    requires pcent <= |s| && FindFrom(s, '%', pcent) + 1 >= |s|
    ensures Expand(s[pcent..], f, t) == Expansion(s[pcent..], false, false)
  {
    var p := FindFrom(s, '%', pcent);
    FindFromFirst(s, '%', pcent);
    ExpandSkip(s, pcent, p, f, t);
    var head := s[pcent..p];
    if p + 1 == |s| {
      ExpandPercentAt(s, p, f, t);
      assert head + "%" == s[pcent..];
    } else {
      assert head == s[pcent..];
      assert s[p..] == [];
    }
  }

  /** The expansion from a % on. */
  lemma ExpandPercentAt(s: string, p: nat, f: string, t: string)
    requires p < |s| && s[p] == '%'
    ensures Expand(s[p..], f, t) ==
      if p + 1 == |s| then Expansion("%", false, false)
      else Splice(s[p + 1], Expand(s[p + 2..], f, t), f, t)
  {
    if p + 1 < |s| {
      assert s[p..][2..] == s[p + 2..];
    } else {
      assert s[p..] == "%";
      assert "%"[1..] == [];
    }
  }

  /** The leafname of the temporary output file: HTML output goes to a
      .html file, anything else to a .txt file. */
  function TmpLeaf(outputType: string): string
  {
    if outputType == "text/html" then "tmp.html" else "tmp.txt"
  }

  /** append_filename_argument: a space and the escaped argument. */
  function AppendFilenameArgument(cmd: string, arg: string, escape: string -> string): string
  {
    cmd + " " + escape(arg)
  }

  /** What the expansion loop keeps: cmd[..pcent] is done, and with the
      expansion of cmd[pcent..] after it gives the expansion e0 of the
      original template; the flags so far with those of the rest give the
      flags of e0. */
  ghost predicate Expanding(e0: Expansion, cmd: string, pcent: nat, substituted: bool, usedTmp: bool,
                            f: string, t: string)
  {
    && pcent <= |cmd|
    && var e := Expand(cmd[pcent..], f, t);
    && e0.text == cmd[..pcent] + e.text
    && e0.substituted == (substituted || e.substituted)
    && e0.usesTmp == (usedTmp || e.usesTmp)
  }

  /** No % with a character after it is left: the loop is done. */
  lemma ExpandingEnd(e0: Expansion, cmd: string, pcent: nat, substituted: bool, usedTmp: bool,
                     f: string, t: string)
    requires Expanding(e0, cmd, pcent, substituted, usedTmp, f, t)
    requires FindFrom(cmd, '%', pcent) + 1 >= |cmd|
    ensures e0 == Expansion(cmd, substituted, usedTmp)
  {
    ExpandRestCopied(cmd, pcent, f, t);
    assert cmd[..pcent] + cmd[pcent..] == cmd;
  }

  /** Regrouping four pieces of text. */
  lemma Concat4(a: string, b: string, c: string, d: string)
    ensures a + (b + (c + d)) == a + b + c + d
  {
  }

  /** The text part of a step that puts piece in place of the two
      characters %x at p and goes on after it. */
  lemma ExpandingText(e0: Expansion, cmd: string, pcent: nat, p: nat, substituted: bool, usedTmp: bool,
                      f: string, t: string, piece: string, cmd': string)
    requires Expanding(e0, cmd, pcent, substituted, usedTmp, f, t)
    requires p == FindFrom(cmd, '%', pcent) && p + 1 < |cmd|
    requires Splice(cmd[p + 1], Expand(cmd[p + 2..], f, t), f, t).text == piece + Expand(cmd[p + 2..], f, t).text
    requires cmd' == cmd[..p] + piece + cmd[p + 2..]
    ensures e0.text == cmd'[..p + |piece|] + Expand(cmd'[p + |piece|..], f, t).text
  {
    ExpandStep(cmd, pcent, p, f, t);
    var rest := Expand(cmd[p + 2..], f, t);
    assert Expand(cmd[pcent..], f, t).text == cmd[pcent..p] + (piece + rest.text);
    SpliceSlices(cmd, pcent, p, piece, cmd');
    Concat4(cmd[..pcent], cmd[pcent..p], piece, rest.text);
  }

  /** Where the pieces of cmd' = cmd[..p] + piece + cmd[p + 2..] lie. */
  lemma SpliceSlices(cmd: string, pcent: nat, p: nat, piece: string, cmd': string)
    requires pcent <= p && p + 2 <= |cmd|
    requires cmd' == cmd[..p] + piece + cmd[p + 2..]
    ensures cmd'[..p + |piece|] == cmd[..pcent] + cmd[pcent..p] + piece
    ensures cmd'[p + |piece|..] == cmd[p + 2..]
  {
    assert cmd[..p] == cmd[..pcent] + cmd[pcent..p];
  }

  /** %% at p: the second % is erased and scanning goes on after the first. */
  lemma ExpandingPercent(e0: Expansion, cmd: string, pcent: nat, p: nat, substituted: bool, usedTmp: bool,
                         f: string, t: string, cmd': string)
    requires Expanding(e0, cmd, pcent, substituted, usedTmp, f, t)
    requires p == FindFrom(cmd, '%', pcent) && p + 1 < |cmd| && cmd[p + 1] == '%'
    requires cmd' == cmd[..p + 1] + cmd[p + 2..]
    ensures Expanding(e0, cmd', p + 1, substituted, usedTmp, f, t)
    ensures |cmd'| - (p + 1) < |cmd| - pcent
  {
    FindFromFirst(cmd, '%', pcent);
    assert cmd' == cmd[..p] + "%" + cmd[p + 2..];
    ExpandStep(cmd, pcent, p, f, t);
    ExpandingText(e0, cmd, pcent, p, substituted, usedTmp, f, t, "%", cmd');
    assert cmd'[p + 1..] == cmd[p + 2..];
  }

  /** %f or %t at p: the two characters are replaced by arg and scanning
      goes on after it. */
  lemma ExpandingArgument(e0: Expansion, cmd: string, pcent: nat, p: nat, substituted: bool, usedTmp: bool,
                          f: string, t: string, arg: string, cmd': string, pcent': nat, usedTmp': bool)
    requires Expanding(e0, cmd, pcent, substituted, usedTmp, f, t)
    requires p == FindFrom(cmd, '%', pcent) && p + 1 < |cmd|
    requires (cmd[p + 1] == 'f' && arg == f) || (cmd[p + 1] == 't' && arg == t)
    requires cmd' == cmd[..p] + arg + cmd[p + 2..] && pcent' == p + |arg|
    requires usedTmp' == (usedTmp || cmd[p + 1] == 't')
    ensures Expanding(e0, cmd', pcent', true, usedTmp', f, t)
    ensures |cmd'| - pcent' < |cmd| - pcent
  {
    ExpandStep(cmd, pcent, p, f, t);
    ExpandingText(e0, cmd, pcent, p, substituted, usedTmp, f, t, arg, cmd');
    assert cmd'[p + |arg|..] == cmd[p + 2..];
  }

  /** Any other %x at p: both characters stay and scanning goes on after
      them. */
  lemma ExpandingOther(e0: Expansion, cmd: string, pcent: nat, p: nat, substituted: bool, usedTmp: bool,
                       f: string, t: string)
    requires Expanding(e0, cmd, pcent, substituted, usedTmp, f, t)
    requires p == FindFrom(cmd, '%', pcent) && p + 1 < |cmd| && cmd[p + 1] !in "%ft"
    ensures Expanding(e0, cmd, p + 2, substituted, usedTmp, f, t)
    ensures |cmd| - (p + 2) < |cmd| - pcent
  {
    FindFromFirst(cmd, '%', pcent);
    assert cmd == cmd[..p] + ['%', cmd[p + 1]] + cmd[p + 2..];
    ExpandStep(cmd, pcent, p, f, t);
    ExpandingText(e0, cmd, pcent, p, substituted, usedTmp, f, t, ['%', cmd[p + 1]], cmd);
  }

  /** The two characters at pcent replaced by the escaped argument, as
      %f and %t are: append_filename_argument puts a space before the
      argument, which is dropped again.  Scanning goes on after the
      argument. */
  method ReplaceAt(cmd: string, pcent: nat, arg: string, escape: string -> string)
    returns (cmd': string, pcent': nat)
    requires pcent + 2 <= |cmd|
    ensures cmd' == cmd[..pcent] + escape(arg) + cmd[pcent + 2..]
    ensures pcent' == pcent + |escape(arg)|
  {
    var tail := cmd[pcent + 2..];
    cmd' := cmd[..pcent];
    cmd' := AppendFilenameArgument(cmd', arg, escape);
    cmd' := cmd'[..pcent] + cmd'[pcent + 1..];
    pcent' := |cmd'|;
    cmd' := cmd' + tail;
  }

  /** %f or %t at p replaced by the escaped argument, keeping the loop
      invariant. */
  method SpliceArgument(cmd: string, pcent: nat, p: nat, arg: string, escape: string -> string,
                        ghost e0: Expansion, ghost substituted: bool, ghost usedTmp: bool,
                        ghost f: string, ghost t: string)
    returns (cmd': string, pcent': nat)
    requires Expanding(e0, cmd, pcent, substituted, usedTmp, f, t)
    requires p == FindFrom(cmd, '%', pcent) && p + 1 < |cmd|
    requires (cmd[p + 1] == 'f' && escape(arg) == f) || (cmd[p + 1] == 't' && escape(arg) == t)
    ensures Expanding(e0, cmd', pcent', true, usedTmp || cmd[p + 1] == 't', f, t)
    ensures |cmd'| - pcent' < |cmd| - pcent
  {
    cmd', pcent' := ReplaceAt(cmd, p, arg, escape);
    ExpandingArgument(e0, cmd, pcent, p, substituted, usedTmp, f, t, escape(arg), cmd', pcent',
                      usedTmp || cmd[p + 1] == 't');
  }

  /** The % at p, with a character after it, dealt with: %% becomes %,
      %f the escaped file name, %t the escaped temporary file name (made at
      the first %t), and any other pair is skipped. */
  method SubstituteAt(cmd: string, pcent: nat, p: nat, substituted: bool, tmpout: string,
                      file: string, outputType: string, escape: string -> string, tmpfile: string -> string,
                      ghost e0: Expansion, ghost usedTmp: bool)
    returns (cmd': string, pcent': nat, substituted': bool, tmpout': string, ghost usedTmp': bool)
    requires Expanding(e0, cmd, pcent, substituted, usedTmp, escape(file), escape(tmpfile(TmpLeaf(outputType))))
    requires tmpout == if usedTmp then tmpfile(TmpLeaf(outputType)) else ""
    requires p == FindFrom(cmd, '%', pcent) && p + 1 < |cmd|
    ensures tmpout' == if usedTmp' then tmpfile(TmpLeaf(outputType)) else ""
    ensures Expanding(e0, cmd', pcent', substituted', usedTmp', escape(file), escape(tmpfile(TmpLeaf(outputType))))
    ensures |cmd'| - pcent' < |cmd| - pcent
  {
    ghost var f := escape(file);
    ghost var t := escape(tmpfile(TmpLeaf(outputType)));
    cmd', substituted', tmpout', usedTmp' := cmd, substituted, tmpout, usedTmp;
    var c := cmd[p + 1];
    if c == '%' {
      // A doubled % keeps one and resumes after it.
      pcent' := p + 1;
      cmd' := cmd[..pcent'] + cmd[pcent' + 1..];
      ExpandingPercent(e0, cmd, pcent, p, substituted, usedTmp, f, t, cmd');
    } else if c == 'f' {
      // The file name goes in, escaped.
      cmd', pcent' := SpliceArgument(cmd, pcent, p, file, escape, e0, substituted, usedTmp, f, t);
      substituted' := true;
    } else if c == 't' {
      // The temporary output file goes in; it is made on first use.
      if tmpout' == [] {
        tmpout' := tmpfile(TmpLeaf(outputType));
      }
      cmd', pcent' := SpliceArgument(cmd, pcent, p, tmpout', escape, e0, substituted, usedTmp, f, t);
      usedTmp' := true;
      substituted' := true;
    } else {
      // Anything else is left alone.
      pcent' := p + 2;
      ExpandingOther(e0, cmd, pcent, p, substituted, usedTmp, f, t);
    }
  }

  /** One turn of the expansion loop: find the next % from pcent and deal
      with it, or report that none with a character after it is left. */
  method SubstituteNext(cmd: string, pcent: nat, substituted: bool, tmpout: string,
                        file: string, outputType: string, escape: string -> string, tmpfile: string -> string,
                        ghost e0: Expansion, ghost usedTmp: bool)
    returns (done: bool, cmd': string, pcent': nat, substituted': bool, tmpout': string, ghost usedTmp': bool)
    requires Expanding(e0, cmd, pcent, substituted, usedTmp, escape(file), escape(tmpfile(TmpLeaf(outputType))))
    requires tmpout == if usedTmp then tmpfile(TmpLeaf(outputType)) else ""
    ensures tmpout' == if usedTmp' then tmpfile(TmpLeaf(outputType)) else ""
    ensures done ==> e0 == Expansion(cmd', substituted', usedTmp')
    ensures !done ==> Expanding(e0, cmd', pcent', substituted', usedTmp', escape(file), escape(tmpfile(TmpLeaf(outputType))))
                      && |cmd'| - pcent' < |cmd| - pcent
  {
    var p := FindFrom(cmd, '%', pcent);
    if p + 1 >= |cmd| {
      ExpandingEnd(e0, cmd, pcent, substituted, usedTmp, escape(file), escape(tmpfile(TmpLeaf(outputType))));
      done, cmd', pcent', substituted', tmpout', usedTmp' := true, cmd, p, substituted, tmpout, usedTmp;
    } else {
      done := false;
      cmd', pcent', substituted', tmpout', usedTmp' :=
        SubstituteAt(cmd, pcent, p, substituted, tmpout, file, outputType, escape, tmpfile, e0, usedTmp);
    }
  }

  /** The loop of index_mimetype that expands the template in place,
      creating the temporary file at the first %t. */
  method SubstituteCommand(cmd0: string, file: string, outputType: string,
                           escape: string -> string, tmpfile: string -> string)
    returns (cmd: string, substituted: bool, tmpout: string)
    ensures var e := Expand(cmd0, escape(file), escape(tmpfile(TmpLeaf(outputType))));
      && cmd == e.text && substituted == e.substituted
      && tmpout == (if e.usesTmp then tmpfile(TmpLeaf(outputType)) else "")
  {
    ghost var e0 := Expand(cmd0, escape(file), escape(tmpfile(TmpLeaf(outputType))));
    ghost var usedTmp := false;
    cmd, substituted, tmpout := cmd0, false, "";
    var pcent: nat := 0;
    assert cmd[..pcent] == [] && cmd[pcent..] == cmd0;
    while true
      invariant Expanding(e0, cmd, pcent, substituted, usedTmp, escape(file), escape(tmpfile(TmpLeaf(outputType))))
      invariant tmpout == if usedTmp then tmpfile(TmpLeaf(outputType)) else ""
      decreases |cmd| - pcent
    {
      var done;
      done, cmd, pcent, substituted, tmpout, usedTmp :=
        SubstituteNext(cmd, pcent, substituted, tmpout, file, outputType, escape, tmpfile, e0, usedTmp);
      if done {
        break;
      }
    }
  }

  // ---------------------------------------------------------------------
  // What the indexer does with the file

  /** The outcome of the lookup and preparation: no filter applies; the
      filter is not installed (an empty command); the type is to be
      ignored (the command "false"), with the key that matched; or the
      command to run and the temporary file to read its output from (empty
      when the output is read from the command's stdout). */
  datatype Prepared = NoFilter | NotInstalled | Ignored(key: string) | Run(cmd: string, tmpout: string)

  /** The command run for a filter: the expanded template, with the escaped
      file name appended when nothing was substituted, unless the command is
      "true". */
  function FilterCommand(template: string, file: string, outputType: string,
                         escape: string -> string, tmpfile: string -> string): Prepared
  {
    var e := Expand(template, escape(file), escape(tmpfile(TmpLeaf(outputType))));
    var tmpout := if e.usesTmp then tmpfile(TmpLeaf(outputType)) else "";
    if !e.substituted && e.text != "true" then Run(AppendFilenameArgument(e.text, file, escape), tmpout)
    else Run(e.text, tmpout)
  }

  function Prepare(commands: map<string, Filter>, mimetype: string, file: string,
                   escape: string -> string, tmpfile: string -> string): Prepared
  {
    match FindFilter(commands, mimetype)
    case None => NoFilter
    case Some(key) =>
      var filter := commands[key];
      if filter.cmd == [] then NotInstalled
      else if filter.cmd == "false" then Ignored(key)
      else FilterCommand(filter.cmd, file, filter.outputType, escape, tmpfile)
  }

  /** No filter applies exactly when the table has none of the candidate
      keys; otherwise the entry of the first candidate it has decides. */
  lemma PrepareByFirstCandidate(commands: map<string, Filter>, mimetype: string, file: string,
                                escape: string -> string, tmpfile: string -> string)
    ensures var ks := Candidates(mimetype);
      var r := Prepare(commands, mimetype, file, escape, tmpfile);
      && (r == NoFilter <==> forall j :: 0 <= j < |ks| ==> ks[j] !in commands)
      && (r.Ignored? ==> exists j :: 0 <= j < |ks| && r.key == ks[j] && commands[ks[j]].cmd == "false"
                                     && forall i :: 0 <= i < j ==> ks[i] !in commands)
  {
    FindFilterFirstCandidate(commands, mimetype);
  }

  /** A template that has no % runs with the file name appended (unless it
      is "true"), and reads the output from stdout. */
  lemma PlainCommandGetsFile(template: string, file: string, outputType: string,
                             escape: string -> string, tmpfile: string -> string)
    requires '%' !in template
    ensures FilterCommand(template, file, outputType, escape, tmpfile) ==
      if template == "true" then Run("true", "") else Run(template + " " + escape(file), "")
  {
    ExpandNoPercent(template, escape(file), escape(tmpfile(TmpLeaf(outputType))));
  }

  /** With %f the file name goes where %f was and is not appended again. */
  lemma PercentFCommand(pre: string, rest: string, file: string, outputType: string,
                        escape: string -> string, tmpfile: string -> string)
    requires '%' !in pre && '%' !in rest
    ensures FilterCommand(pre + "%f" + rest, file, outputType, escape, tmpfile) ==
      Run(pre + escape(file) + rest, "")
  {
    var f, t := escape(file), escape(tmpfile(TmpLeaf(outputType)));
    ExpandSubstitutes(pre, 'f', rest, f, t);
    ExpandNoPercent(rest, f, t);
  }

  /** indexing a file of type mimetype: look the filter up and, when there
      is one to run, expand its command. */
  method PrepareFilter(commands: map<string, Filter>, mimetype: string, file: string,
                       escape: string -> string, tmpfile: string -> string)
    returns (r: Prepared)
    ensures r == Prepare(commands, mimetype, file, escape, tmpfile)
  {
    var key := FindFilter(commands, mimetype);
    if key.None? {
      return NoFilter;
    }
    var filter := commands[key.value];
    var cmd := filter.cmd;
    if cmd == [] {
      return NotInstalled;
    }
    if cmd == "false" {
      return Ignored(key.value);
    }
    var substituted, tmpout;
    cmd, substituted, tmpout := SubstituteCommand(cmd, file, filter.outputType, escape, tmpfile);
    if !substituted && cmd != "true" {
      // Nothing substituted: the file name goes at the end.
      cmd := AppendFilenameArgument(cmd, file, escape);
    }
    r := Run(cmd, tmpout);
  }
}
