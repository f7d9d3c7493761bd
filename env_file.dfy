/** The part of update_env_allowed_chat_ids that rewrites the lines of the
    .env file: the ALLOWED_CHAT_IDS line gets the sorted ids, every other line
    stays. Reading and writing the file is not modelled; the lines come in
    and the text to write goes out. */
module EnvFile {
  import opened Outcomes
  import opened Text
  import opened Config

  /** The key the rewrite looks for, with its equals sign. */
  const EnvKey: string := "ALLOWED_CHAT_IDS="

  /** m is the least element of ids. */
  predicate IsLeast(m: int, ids: set<int>) {
    m in ids && forall x :: x in ids ==> m <= x
  }

  lemma {:induction false} LeastExists(ids: set<int>)
    requires ids != {}
    ensures exists m :: IsLeast(m, ids)
    decreases |ids|
  {
    if forall x :: x !in ids {
      assert false;
    }
    var y :| y in ids;
    var rest := ids - {y};
    if rest == {} {
      forall x | x in ids
        ensures y <= x
      {
        assert x == y || x in rest;
      }
      assert IsLeast(y, ids);
    } else {
      LeastExists(rest);
      var m :| IsLeast(m, rest);
      var least := if y < m then y else m;
      forall x | x in ids
        ensures least <= x
      {
        assert x == y || x in rest;
      }
      assert IsLeast(least, ids);
    }
  }

  /** sorted() of a set of ints: every element once, in increasing order. */
  function SortedIds(ids: set<int>): (r: seq<int>)
    ensures forall i, j :: 0 <= i < j < |r| ==> r[i] < r[j]
    ensures forall x :: x in ids <==> x in r
    decreases |ids|
  {
    if ids == {} then []
    else
      LeastExists(ids);
      var m :| IsLeast(m, ids);
      [m] + SortedIds(ids - {m})
  }

  /** str() of each id. */
  function IdTexts(xs: seq<int>): (r: seq<string>)
    ensures |r| == |xs| && forall i :: 0 <= i < |xs| ==> r[i] == IntToString(xs[i])
  {
    seq(|xs|, i requires 0 <= i < |xs| => IntToString(xs[i]))
  }

  /** The new value: the ids in increasing order, comma-separated. */
  function IdsValue(ids: set<int>): string {
    Join(IdTexts(SortedIds(ids)), ",")
  }

  function KeyLine(ids: set<int>): string {
    EnvKey + IdsValue(ids)
  }

  /** A line the rewrite replaces: its trimmed text starts with the key. */
  predicate IsKeyLine(line: string) {
    StartsWith(Strip(line), EnvKey)
  }

  /** What the loop appends for one line of the file. */
  function NewLine(line: string, ids: set<int>): string {
    if IsKeyLine(line) then KeyLine(ids) else line
  }

  /** Every line mapped through NewLine, in place. */
  function Kept(lines: seq<string>, ids: set<int>): (out: seq<string>)
    ensures |out| == |lines| && forall i :: 0 <= i < |lines| ==> out[i] == NewLine(lines[i], ids)
  {
    seq(|lines|, i requires 0 <= i < |lines| => NewLine(lines[i], ids))
  }

  predicate HasKeyLine(lines: seq<string>) {
    exists i :: 0 <= i < |lines| && IsKeyLine(lines[i])
  }

  /** The rewritten lines: each key line replaced by the new one, every
      other line kept in place, and the new line appended when there was
      none. */
  function RewrittenLines(lines: seq<string>, ids: set<int>): (out: seq<string>)
    ensures |out| == |lines| + (if HasKeyLine(lines) then 0 else 1)
    ensures forall i :: 0 <= i < |lines| ==>
              out[i] == if IsKeyLine(lines[i]) then KeyLine(ids) else lines[i]
    ensures !HasKeyLine(lines) ==> out[|lines|] == KeyLine(ids)
  {
    if HasKeyLine(lines) then Kept(lines, ids) else Kept(lines, ids) + [KeyLine(ids)]
  }

  lemma KeptStep(lines: seq<string>, i: int, ids: set<int>)
    requires 0 <= i < |lines|
    ensures Kept(lines[..i + 1], ids) == Kept(lines[..i], ids) + [NewLine(lines[i], ids)]
    ensures HasKeyLine(lines[..i + 1]) <==> HasKeyLine(lines[..i]) || IsKeyLine(lines[i])
  {
    var pre := lines[..i];
    var ext := lines[..i + 1];
    assert ext == pre + [lines[i]];
    if HasKeyLine(ext) {
      var j :| 0 <= j < |ext| && IsKeyLine(ext[j]);
      if j < i {
        assert pre[j] == ext[j];
      }
    }
    if HasKeyLine(pre) {
      var j :| 0 <= j < |pre| && IsKeyLine(pre[j]);
      assert ext[j] == pre[j];
    }
    if IsKeyLine(lines[i]) {
      assert IsKeyLine(ext[i]);
    }
  }

  /** The text update_env_allowed_chat_ids writes back for the lines of the
      file: the rewritten lines, each ended by a line feed. */
  method RewriteEnv(lines: seq<string>, ids: set<int>) returns (text: string)
    ensures text == Join(RewrittenLines(lines, ids), "\n") + "\n"
  {
    var newValue := IdsValue(ids);
    var found := false;
    var newLines: seq<string> := [];
    var i := 0;
    assert lines[..0] == [];
    while i < |lines|
      invariant 0 <= i <= |lines|
      invariant newLines == Kept(lines[..i], ids)
      invariant found <==> HasKeyLine(lines[..i])
    {
      KeptStep(lines, i, ids);
      if StartsWith(Strip(lines[i]), EnvKey) {
        newLines := newLines + [EnvKey + newValue];
        found := true;
      } else {
        newLines := newLines + [lines[i]];
      }
      i := i + 1;
    }
    assert lines[..i] == lines;
    if !found {
      newLines := newLines + [EnvKey + newValue];
    }
    text := Join(newLines, "\n") + "\n";
  }

  /** The new line is itself a key line ... */
  lemma KeyLineIsKeyLine(ids: set<int>)
    ensures IsKeyLine(KeyLine(ids))
  {
    var line := KeyLine(ids);
    TrimStartSpec(line);
    assert !IsSpace(line[0]);
    assert TrimStart(line) == line;
    TrimEndSpec(line);
    var r := Strip(line);
    assert !IsSpace(line[16]);
    assert |r| >= 17;
    assert r[..17] == line[..17] == EnvKey;
  }

  /** ... so rewriting twice is rewriting once. */
  lemma RewriteIdempotent(lines: seq<string>, ids: set<int>)
    ensures RewrittenLines(RewrittenLines(lines, ids), ids) == RewrittenLines(lines, ids)
  {
    var once := RewrittenLines(lines, ids);
    KeyLineIsKeyLine(ids);
    var p :| 0 <= p < |once| && IsKeyLine(once[p]) by {
      if HasKeyLine(lines) {
        var i :| 0 <= i < |lines| && IsKeyLine(lines[i]);
        assert IsKeyLine(once[i]);
      } else {
        assert IsKeyLine(once[|lines|]);
      }
    }
    assert HasKeyLine(once);
    var twice := Kept(once, ids);
    forall i | 0 <= i < |once|
      ensures twice[i] == once[i]
    {
      if i < |lines| && !IsKeyLine(lines[i]) {
        assert once[i] == lines[i];
      } else {
        assert once[i] == KeyLine(ids);
      }
    }
    assert twice == once;
  }

  /** The text of an int holds digits and perhaps a leading minus sign. */
  lemma IntTextChars(n: int)
    ensures var t := IntToString(n);
            t != "" && forall i :: 0 <= i < |t| ==> IsDigit(t[i]) || t[i] == '-'
  {
    var t := IntToString(n);
    if n < 0 {
      var ds := NatToString(-n);
      assert t == "-" + ds;
      assert forall i :: 1 <= i < |t| ==> t[i] == ds[i - 1];
    }
  }

  /** The ids are written with no separator inside any of them ... */
  lemma IdTextsPlain(xs: seq<int>)
    ensures forall k :: 0 <= k < |xs| ==> ',' !in IdTexts(xs)[k] && IdTexts(xs)[k] != ""
  {
    forall k | 0 <= k < |xs|
      ensures ',' !in IdTexts(xs)[k] && IdTexts(xs)[k] != ""
    {
      IntTextChars(xs[k]);
    }
  }

  lemma IdTextsSnoc(init: seq<int>, last: int)
    ensures IdTexts(init + [last]) == IdTexts(init) + [IntToString(last)]
    ensures (set x | x in init + [last]) == (set x | x in init) + {last}
  {
    assert IdTexts(init + [last]) == IdTexts(init) + [IntToString(last)];
  }

  /** ... and _parse_int_set reads each of them back. */
  lemma {:induction false} ReadIdTexts(xs: seq<int>)
    ensures IntSetOf(IdTexts(xs)) == Ok(set x | x in xs)
    decreases |xs|
  {
    if xs == [] {
      assert IdTexts(xs) == [];
      assert (set x | x in xs) == {};
    } else {
      var init := xs[..|xs| - 1];
      var last := xs[|xs| - 1];
      assert xs == init + [last];
      ReadIdTexts(init);
      IdTextsSnoc(init, last);
      IntToStringShape(last);
      IntRoundTrip(last);
      IntSetOfAppend(IdTexts(init), IntToString(last), (set x | x in init), last);
    }
  }

  lemma IdTextEnds(n: int)
    ensures var t := IntToString(n); t != [] && !IsSpace(t[0]) && !IsSpace(t[|t| - 1])
  {
    IntToStringShape(n);
    StripSpec(IntToString(n));
  }

  /** The value written has no white space at either end ... */
  lemma IdsValueTrimmed(ids: set<int>)
    ensures Strip(IdsValue(ids)) == IdsValue(ids)
  {
    var xs := SortedIds(ids);
    var parts := IdTexts(xs);
    var v := Join(parts, ",");
    if parts != [] {
      var first := parts[0];
      var final := parts[|parts| - 1];
      IdTextEnds(xs[0]);
      IdTextEnds(xs[|xs| - 1]);
      JoinStart(parts, ",");
      JoinEnd(parts, ",");
      assert !IsSpace(v[0]) && !IsSpace(v[|v| - 1]);
    }
    StripFixed(v);
  }

  /** ... and get_settings reads it back as the same set of chat ids. */
  lemma IdsValueReadBack(ids: set<int>)
    ensures IntSetSpec(Some(Strip(IdsValue(ids)))) == Ok(ids)
  {
    IdsValueTrimmed(ids);
    var xs := SortedIds(ids);
    var parts := IdTexts(xs);
    if xs == [] {
      assert ids == {};
    } else {
      IdTextsPlain(xs);
      JoinStart(parts, ",");
      JoinSplit(parts, ',');
      ReadIdTexts(xs);
      assert (set x | x in xs) == ids;
    }
  }
}
