/** The decoded files of a resource pack (`ResourcePack.Content`): a map from
    path to bytes, with text, line and lang-table views over it and a cache
    of parsed lang tables. */
module ContentStore {
  import opened Wrappers
  import opened JavaLang
  import opened JavaStrings
  import opened Utf8
  import opened LangFile
  import opened MapBuilding

  /** What reading a lang table fails with: the file is absent, so the
      line list is null and streaming it throws; or a line passes the
      filters but has no value, and `split("=", 2)[1]` throws. */
  datatype ContentError = MissingFile(path: string) | MalformedLine(line: string)

  /** The separator `putLines` writes: the two characters `\` and `n`. */
  const LineSeparator: string := ['\\', 'n']

  /** The lines `putLang` writes for a table, in the given key order. */
  function LangLines(lang: map<string, string>, order: seq<string>): (lines: seq<string>)
    requires forall i :: 0 <= i < |order| ==> order[i] in lang
    ensures |lines| == |order|
    ensures forall i :: 0 <= i < |order| ==> lines[i] == FormatLine(order[i], lang[order[i]])
  {
    seq(|order|, i requires 0 <= i < |order| => FormatLine(order[i], lang[order[i]]))
  }

  /** An order that lists each key of the table exactly once: a `HashMap`
      entry-set iteration. */
  ghost predicate IsKeyOrder(lang: map<string, string>, order: seq<string>) {
    (forall k :: k in lang <==> k in order) &&
    (forall i, j :: 0 <= i < j < |order| ==> order[i] != order[j])
  }

  class Content {
    var files: map<string, seq<Byte>>
    var langCache: map<string, map<string, string>>

    constructor ()
      ensures files == map[] && langCache == map[]
    {
      files := map[];
      langCache := map[];
    }

    /** `HashMap.put`: store the bytes, giving back what was there. */
    method Put(path: string, data: seq<Byte>) returns (prev: Option<seq<Byte>>)
      modifies this
      ensures files == old(files)[path := data] && langCache == old(langCache)
      ensures prev == if path in old(files) then Some(old(files)[path]) else None
    {
      prev := if path in files then Some(files[path]) else None;
      files := files[path := data];
    }

    /** `HashMap.remove`: drop the file, giving back what was there. */
    method Remove(path: string) returns (prev: Option<seq<Byte>>)
      modifies this
      ensures files == old(files) - {path} && langCache == old(langCache)
      ensures prev == if path in old(files) then Some(old(files)[path]) else None
    {
      prev := if path in files then Some(files[path]) else None;
      files := files - {path};
    }

    /** `getString`: the file decoded as UTF-8, or null when absent. */
    function GetString(path: string): (r: Option<string>)
      reads this
      ensures r.Some? <==> path in files
      ensures r.Some? ==> |r.value| <= |files[path]|
    {
      if path in files then Some(Decode(files[path])) else None
    }

    /** `getLines`: the text split at newline characters, trailing empty
        lines dropped. No line holds a newline. */
    function GetLines(path: string): (r: Option<seq<string>>)
      reads this
      ensures r.Some? <==> path in files
      ensures r.Some? ==> forall i :: 0 <= i < |r.value| ==> '\n' !in r.value[i]
      ensures r.Some? && '\n' !in GetString(path).value ==> r.value == [GetString(path).value]
    {
      match GetString(path)
      case None => None
      case Some(s) => Some(Split(s, '\n'))
    }

    /** `putString`: store the UTF-8 bytes; true when a file was replaced.
        The lang cache is left as it was, stale or not. */
    method PutString(path: string, s: string) returns (replaced: bool)
      modifies this
      ensures files == old(files)[path := Encode(s)]
      ensures langCache == old(langCache)
      ensures replaced <==> path in old(files)
      ensures GetString(path) == Some(s)
    {
      replaced := path in files;
      files := files[path := Encode(s)];
      DecodeEncode(s);
    }

    /** `putLines`: the lines joined with the two-character text `\n`. */
    method PutLines(path: string, lines: seq<string>) returns (replaced: bool)
      modifies this
      ensures files == old(files)[path := Encode(Join(LineSeparator, lines))]
      ensures langCache == old(langCache)
      ensures replaced <==> path in old(files)
    {
      replaced := PutString(path, Join(LineSeparator, lines));
    }

    /** `getLang`: the cached table when there is one; otherwise the file is
        parsed and the table cached. A missing file, or a malformed line, on
        which `computeIfAbsent` throws, fails and caches nothing. A parse
        that succeeds is the intended one. */
    method GetLang(path: string) returns (r: Result<map<string, string>, ContentError>)
      modifies this
      ensures files == old(files)
      ensures path in old(langCache) ==> r == Ok(old(langCache)[path]) && langCache == old(langCache)
      ensures path !in old(langCache) && path !in files ==> r == Err(MissingFile(path)) && langCache == old(langCache)
      ensures path !in old(langCache) && path in files ==>
        var lines := GetLines(path).value;
        (r.Ok? <==> forall i :: 0 <= i < |lines| ==> !IsMalformed(lines[i])) &&
        (r.Ok? ==> r.value == ParseLang(lines) && langCache == old(langCache)[path := r.value]) &&
        (r.Err? ==> langCache == old(langCache)) &&
        (r.Err? ==> exists i ::
          0 <= i < |lines| && r.error == MalformedLine(lines[i]) &&
          IsMalformed(lines[i]) && forall j :: 0 <= j < i ==> !IsMalformed(lines[j]))
    {
      if path in langCache {
        return Ok(langCache[path]);
      }
      var lines := GetLines(path);
      if lines.None? {
        return Err(MissingFile(path));
      }
      AsWrittenAgrees(lines.value);
      match ParseLangAsWritten(lines.value) {
        case Err(e) =>
          AsWrittenFailsFirst(lines.value);
          r := Err(MalformedLine(e.line));
        case Ok(lang) =>
          langCache := langCache[path := lang];
          r := Ok(lang);
      }
    }

    /** `putLang`: cache the table as given and store it as `key=value` lines
        in the map's iteration order. */
    method PutLang(path: string, lang: map<string, string>, order: seq<string>) returns (replaced: bool)
      requires IsKeyOrder(lang, order)
      modifies this
      ensures langCache == old(langCache)[path := lang]
      ensures files == old(files)[path := Encode(Join(LineSeparator, LangLines(lang, order)))]
      ensures replaced <==> path in old(files)
    {
      langCache := langCache[path := lang];
      replaced := PutLines(path, LangLines(lang, order));
    }
  }

  /** `getLang` right after `putLang` serves the table that was put, from
      the cache, whatever the stored text parses to. */
  method PutLangThenGetLang(c: Content, path: string, lang: map<string, string>, order: seq<string>)
      returns (r: Result<map<string, string>, ContentError>)
    requires IsKeyOrder(lang, order)
    modifies c
    ensures r == Ok(lang)
  {
    var _ := c.PutLang(path, lang, order);
    r := c.GetLang(path);
  }

  /** No line of a join holds a character absent from the parts and the separator. */
  lemma {:induction false} JoinAvoids(sep: string, parts: seq<string>, ch: char)
    requires ch !in sep && forall i :: 0 <= i < |parts| ==> ch !in parts[i]
    ensures ch !in Join(sep, parts)
  {
    if |parts| > 1 {
      JoinAvoids(sep, parts[1..], ch);
    }
  }

  /** What `getLines` reads back from the text `putLines` wrote: the lines
      come back as one, joined with `\n` as two characters. */
  lemma LinesReadBackAsOne(lines: seq<string>)
    requires forall i :: 0 <= i < |lines| ==> '\n' !in lines[i]
    ensures Split(Decode(Encode(Join(LineSeparator, lines))), '\n') == [Join(LineSeparator, lines)]
  {
    DecodeEncode(Join(LineSeparator, lines));
    JoinAvoids(LineSeparator, lines, '\n');
  }

  /** So two lines written do not read back as two lines. */
  lemma TwoLinesDoNotRoundTrip()
    ensures Split(Decode(Encode(Join(LineSeparator, ["a", "b"]))), '\n') != ["a", "b"]
  {
    LinesReadBackAsOne(["a", "b"]);
  }

  lemma ParseLangSingle(line: string, k: string, v: string)
    requires Entry(line) == Some((k, v))
    ensures ParseLang([line]) == map[k := v]
  {
    ParseLangOne(line);
    CollectOne(k, v);
  }

  /** A one-entry table written by `putLang` parses back to itself once the
      cache is gone, provided its line is well formed. */
  lemma SingleEntryLangRoundTrip(k: string, v: string)
    requires '=' !in k && '\n' !in k && '\n' !in v
    requires !StartsWith(FormatLine(k, v), "##") && !Contains(FormatLine(k, v), "##")
    requires k == [] || !IsTrimmed(k[0])
    requires v == [] || !IsTrimmed(v[|v| - 1])
    ensures ParseLang(Split(Decode(Encode(Join(LineSeparator, LangLines(map[k := v], [k])))), '\n')) == map[k := v]
  {
    var line := FormatLine(k, v);
    var lines := LangLines(map[k := v], [k]);
    assert lines == [line];
    assert '\n' !in line;
    LinesReadBackAsOne(lines);
    assert Join(LineSeparator, lines) == line;
    EntryFormatLine(k, v);
    ParseLangSingle(line, k, v);
  }
}
