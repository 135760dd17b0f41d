/** Parsing of Bedrock `.lang` files (`Content.getLang`): one `key=value`
    pair per line, `##` starts a comment, the last duplicate key wins. */
module LangFile {
  import opened Wrappers
  import opened MapBuilding
  import opened JavaStrings

  /** What `getLang` throws: `split("=", 2)` gave one part and `parts[1]`
      is out of bounds (`ArrayIndexOutOfBoundsException`). */
  datatype LangError = MissingValue(line: string)

  predicate IsCommentLine(line: string) {
    StartsWith(line, "##")
  }

  /** The line up to its first `##`, or the whole line when it has none. */
  function StripComment(line: string): (r: string)
    ensures |r| <= |line| && r == line[..|r|]
    ensures Contains(line, "##") <==> |r| < |line|
    ensures Contains(line, "##") ==> OccursAt(line, "##", |r|)
    ensures forall j :: 0 <= j ==> !OccursAt(r, "##", j)
  {
    var i := IndexOf(line, "##");
    var r := if i != -1 then line[..i] else line;
    assert forall j :: 0 <= j && OccursAt(r, "##", j) ==> OccursAt(line, "##", j) by {
      forall j | 0 <= j && OccursAt(r, "##", j) ensures OccursAt(line, "##", j) {
        assert line[j..j + 2] == r[j..j + 2];
      }
    }
    r
  }

  /** The trimmed text of a line that passes both filters of `getLang`:
      it does not start with `##` and it contains `=` somewhere, possibly
      only inside its comment. */
  function Candidate(line: string): (r: Option<string>)
    ensures r.Some? <==> !IsCommentLine(line) && '=' in line
  {
    IndexOfSingle(line, '=');
    if IsCommentLine(line) || !Contains(line, "=") then None
    else Some(Trim(StripComment(line)))
  }

  /** A line that passes both filters but whose text before the comment has
      no `=`: the source crashes on it. */
  predicate IsMalformed(line: string) {
    Candidate(line).Some? && '=' !in Candidate(line).value
  }

  /** One line as the source handles it: skipped, a pair, or the crash. */
  function EntryAsWritten(line: string): (r: Result<Option<(string, string)>, LangError>)
    ensures r.Err? <==> IsMalformed(line)
    ensures r.Err? ==> r.error == MissingValue(line)
  {
    match Candidate(line)
    case None => Ok(None)
    case Some(t) =>
      var parts := SplitFirst(t, '=');
      if |parts| < 2 then Err(MissingValue(line)) else Ok(Some((parts[0], parts[1])))
  }

  /** `getLang` as written: the lines in order, the first malformed one
      aborts the whole map. */
  function ParseLangAsWritten(lines: seq<string>): (r: Result<map<string, string>, LangError>)
  {
    CollectOrFail(seq(|lines|, i requires 0 <= i < |lines| => EntryAsWritten(lines[i])))
  }

  /** One line as intended: a pair when the text before the comment holds a
      `=`, nothing otherwise. The key holds no `=` and the pair rebuilds the
      trimmed text. */
  function Entry(line: string): (r: Option<(string, string)>)
    ensures r.Some? <==> Candidate(line).Some? && !IsMalformed(line)
    ensures r.Some? ==> '=' !in r.value.0
    ensures r.Some? ==> r.value.0 + "=" + r.value.1 == Trim(StripComment(line))
  {
    match Candidate(line)
    case None => None
    case Some(t) =>
      if '=' in t then
        var parts := SplitFirst(t, '=');
        Some((parts[0], parts[1]))
      else None
  }

  /** `getLang` as intended: every line that holds a pair contributes it. */
  function ParseLang(lines: seq<string>): (m: map<string, string>)
  {
    Collect(Entries(lines))
  }

  /** The entry of every line, in order. */
  function Entries(lines: seq<string>): (es: seq<Option<(string, string)>>)
    ensures |es| == |lines| && forall i :: 0 <= i < |lines| ==> es[i] == Entry(lines[i])
  {
    seq(|lines|, i requires 0 <= i < |lines| => Entry(lines[i]))
  }

  lemma ParseLangOne(line: string)
    ensures ParseLang([line]) == Collect([Entry(line)])
  {
    assert Entries([line]) == [Entry(line)];
  }

  lemma EntryAgrees(line: string)
    ensures EntryAsWritten(line) == if IsMalformed(line) then Err(MissingValue(line)) else Ok(Entry(line))
  {
  }

  /** `Collect` over per-line results, stopping at the first failure as the
      stream pipeline does when a stage throws. */
  function CollectOrFail<K, V, E>(results: seq<Result<Option<(K, V)>, E>>): (r: Result<map<K, V>, E>)
  {
    if results == [] then Ok(map[])
    else
      var m :- CollectOrFail(results[..|results| - 1]);
      var e :- results[|results| - 1];
      Ok(match e case None => m case Some((k, v)) => m[k := v])
  }

  /** The collection succeeds exactly when every result does, and then it is
      the plain collection of the values. */
  lemma {:induction false} CollectOrFailOk<K, V, E>(results: seq<Result<Option<(K, V)>, E>>)
    ensures CollectOrFail(results).Ok? <==> forall i :: 0 <= i < |results| ==> results[i].Ok?
    ensures CollectOrFail(results).Ok? ==>
      CollectOrFail(results).value == Collect(seq(|results|, i requires 0 <= i < |results| && results[i].Ok? => results[i].value))
  {
    if results != [] {
      var init := results[..|results| - 1];
      CollectOrFailOk(init);
      assert forall i :: 0 <= i < |init| ==> init[i] == results[i];
      if CollectOrFail(results).Ok? {
        var vs := seq(|results|, i requires 0 <= i < |results| && results[i].Ok? => results[i].value);
        assert vs[..|vs| - 1] == seq(|init|, i requires 0 <= i < |init| && init[i].Ok? => init[i].value);
      }
    }
  }

  /** A failed collection fails with the error of its first failing result. */
  lemma {:induction false} CollectOrFailFirst<K, V, E>(results: seq<Result<Option<(K, V)>, E>>)
    requires CollectOrFail(results).Err?
    ensures exists i ::
      0 <= i < |results| && results[i] == Err(CollectOrFail(results).error) && forall j :: 0 <= j < i ==> results[j].Ok?
  {
    var init := results[..|results| - 1];
    if CollectOrFail(init).Err? {
      CollectOrFailFirst(init);
      var i :| 0 <= i < |init| && init[i] == Err(CollectOrFail(init).error) && forall j :: 0 <= j < i ==> init[j].Ok?;
      assert results[i] == init[i];
    } else {
      CollectOrFailOk(init);
      assert forall j :: 0 <= j < |init| ==> results[j] == init[j];
    }
  }

  /** The source's parse fails on the first malformed line, naming it. */
  lemma AsWrittenFailsFirst(lines: seq<string>)
    requires ParseLangAsWritten(lines).Err?
    ensures exists i ::
      0 <= i < |lines| && ParseLangAsWritten(lines).error == MissingValue(lines[i]) &&
      IsMalformed(lines[i]) && forall j :: 0 <= j < i ==> !IsMalformed(lines[j])
  {
    var rs := seq(|lines|, i requires 0 <= i < |lines| => EntryAsWritten(lines[i]));
    CollectOrFailFirst(rs);
    var i :| 0 <= i < |rs| && rs[i] == Err(CollectOrFail(rs).error) && forall j :: 0 <= j < i ==> rs[j].Ok?;
    assert rs[i] == EntryAsWritten(lines[i]);
    forall j | 0 <= j < i ensures !IsMalformed(lines[j]) {
      assert rs[j] == EntryAsWritten(lines[j]);
    }
  }

  /** The source's parse succeeds exactly when no line is malformed, and then
      it agrees with the intended parse. */
  lemma AsWrittenAgrees(lines: seq<string>)
    ensures ParseLangAsWritten(lines).Ok? <==> forall i :: 0 <= i < |lines| ==> !IsMalformed(lines[i])
    ensures ParseLangAsWritten(lines).Ok? ==> ParseLangAsWritten(lines).value == ParseLang(lines)
  {
    var rs := seq(|lines|, i requires 0 <= i < |lines| => EntryAsWritten(lines[i]));
    CollectOrFailOk(rs);
    forall i | 0 <= i < |lines| ensures rs[i].Ok? <==> !IsMalformed(lines[i]) {
      EntryAgrees(lines[i]);
    }
    if ParseLangAsWritten(lines).Ok? {
      var vs := seq(|rs|, i requires 0 <= i < |rs| && rs[i].Ok? => rs[i].value);
      assert vs == Entries(lines) by {
        forall i | 0 <= i < |lines| ensures vs[i] == Entry(lines[i]) {
          EntryAgrees(lines[i]);
        }
      }
    }
  }

  /** The line on which the source fails: its only `=` is inside the
      comment, so the cut text `title` has no value. */
  lemma CommentedEqualsCrashes()
    ensures ParseLangAsWritten(["title ## note=1"]).Err?
  {
    var line := "title ## note=1";
    assert OccursAt(line, "##", 6);
    assert IndexOf(line, "##") == 6 by {
      forall j | 0 <= j < 6 ensures !OccursAt(line, "##", j) {
        assert line[j] != '#';
        assert line[j..j + 2][0] == line[j];
      }
    }
    assert StripComment(line) == "title ";
    var t := Trim("title ");
    assert t == "title" by {
      assert LeadingTrimmed("title ") == 0;
      assert t == "title "[..|t|];
      assert |t| == 5;
    }
    assert line[13] == '=';
    assert IsMalformed(line);
    AsWrittenAgrees([line]);
  }

  /** A key is in the parsed lang map exactly when some line holds a pair for it. */
  lemma ParseLangKeys(lines: seq<string>, k: string)
    ensures k in ParseLang(lines) <==>
      exists i :: 0 <= i < |lines| && Entry(lines[i]).Some? && Entry(lines[i]).value.0 == k
  {
    CollectKeys(Entries(lines), k);
  }

  /** The value of a key is the one of the last line holding a pair for it. */
  lemma ParseLangLastWins(lines: seq<string>, i: nat)
    requires i < |lines| && Entry(lines[i]).Some?
    requires forall j :: i < j < |lines| && Entry(lines[j]).Some? ==> Entry(lines[j]).value.0 != Entry(lines[i]).value.0
    ensures Entry(lines[i]).value.0 in ParseLang(lines)
    ensures ParseLang(lines)[Entry(lines[i]).value.0] == Entry(lines[i]).value.1
  {
    var es := Entries(lines);
    CollectLastWins(es, i);
  }

  /** The line `putLang` writes for a pair: `key=value`. */
  function FormatLine(k: string, v: string): (line: string)
    ensures |line| == |k| + 1 + |v| && line[|k|] == '='
    ensures line[..|k|] == k && line[|k| + 1..] == v
  {
    k + "=" + v
  }

  /** A string whose ends are not whitespace is its own trim. */
  lemma TrimUntrimmed(s: string)
    requires s != [] && !IsTrimmed(s[0]) && !IsTrimmed(s[|s| - 1])
    ensures Trim(s) == s
  {
    assert LeadingTrimmed(s) == 0;
    var r := Trim(s);
    assert |r| == |s|;
  }

  /** A line written for a pair reads back as that pair, provided the key
      has no `=`, the line no `##`, and neither end is whitespace. */
  lemma EntryFormatLine(k: string, v: string)
    requires '=' !in k && !StartsWith(FormatLine(k, v), "##") && !Contains(FormatLine(k, v), "##")
    requires k == [] || !IsTrimmed(k[0])
    requires v == [] || !IsTrimmed(v[|v| - 1])
    ensures Entry(FormatLine(k, v)) == Some((k, v))
  {
    var line := FormatLine(k, v);
    assert line[|k|] == '=';
    assert line[0] == (if k == [] then '=' else k[0]);
    assert line[|line| - 1] == (if v == [] then '=' else v[|v| - 1]);
    TrimUntrimmed(line);
    assert StripComment(line) == line;
    SplitFirstJoin(k, '=', v);
  }
}
