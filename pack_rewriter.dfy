/** `ResourcePackRewriter`: the Java edition resource pack built from the
    Bedrock packs. Glyph sheets become bitmap font providers, large UI
    textures become item models selected by custom model data, and a
    `pack.mcmeta` closes the pack. Gson, ImageIO and `String.hashCode` are
    the parameters in `Codecs`. */
module PackRewriter {
  import opened Wrappers
  import opened JavaLang
  import opened JavaStrings
  import opened ContentStore

  /** A Java `char`: one UTF-16 code unit. The glyph table holds surrogate
      values too, which a Dafny `char` cannot. */
  type CodeUnit = x: int | 0 <= x < 0x1_0000

  /** A `bitmap` font provider. */
  datatype Provider = Provider(file: string, ascent: int, height: int, chars: seq<seq<CodeUnit>>)

  /** One entry of the `overrides` of `map.json`. */
  datatype Override = Override(model: string, customModelData: Int32)

  /** The JSON documents the rewriter reads and writes. */
  datatype Json =
    | FontDefaults(providers: seq<Provider>)  // assets/minecraft/font/default.json
    | ItemModel(layer0: string)               // a generated item model, shown at scale 3 in the GUI
    | MapItem(overrides: seq<Override>)       // the filled map item with its overrides
    | PackManifest(packFormat: int, description: string)

  /** What `ImageIO.read` makes of some bytes: it throws an `IOException`,
      which `getImage` rethrows; no reader claims them and it returns null;
      or an image. */
  datatype ImageRead<Img> = Unreadable | NoReader | Image(image: Img)

  /** The libraries the rewriter calls: Gson with the UTF-8 step of
      `putString`/`getString` folded in, ImageIO, and `String.hashCode`. */
  datatype Codecs<!Img> = Codecs(
    encodeJson: Json -> seq<Byte>,
    decodeJson: seq<Byte> -> Option<Json>,
    decodeImage: seq<Byte> -> ImageRead<Img>,
    encodeImage: Img -> seq<Byte>,
    height: Img -> nat,
    width: Img -> nat,
    hash: string -> Int32)

  datatype RewriteError =
    | FontDefaultsUnreadable            // default.json is there but has no provider list
    | GlyphSheetUnreadable(path: string) // ImageIO could not read a glyph sheet
    | UiTextureUnreadable(path: string)  // ImageIO threw on a UI texture

  // ---------------------------------------------------------------- glyph page names

  const DefaultsPath: string := "assets/minecraft/font/default.json"
  const GlyphsPerRow: nat := 16
  const GlyphsPerColumn: nat := 16
  /** The loop bound: pages 0x00 to 0xFE. */
  const PageLimit: nat := 0xFF

  function UpperHexDigit(d: nat): char
    requires d < 16
  {
    "0123456789ABCDEF"[d]
  }

  function LowerHexDigit(d: nat): char
    requires d < 16
  {
    "0123456789abcdef"[d]
  }

  /** `String.format("%1$02X", i)`. */
  function Hex2(i: nat): string
    requires i < 0x100
  {
    [UpperHexDigit(i / 16), UpperHexDigit(i % 16)]
  }

  /** `toLowerCase(Locale.ROOT)` on ASCII text. */
  function AsciiLower(s: string): (r: string)
    ensures |r| == |s|
    ensures forall k :: 0 <= k < |s| ==> r[k] == if 'A' <= s[k] <= 'Z' then (s[k] as int + 32) as char else s[k]
  {
    seq(|s|, k requires 0 <= k < |s| => if 'A' <= s[k] <= 'Z' then (s[k] as int + 32) as char else s[k])
  }

  function PageName(i: nat): string
    requires i < 0x100
  {
    "glyph_" + Hex2(i) + ".png"
  }

  function BedrockPagePath(i: nat): string
    requires i < 0x100
  {
    "font/" + PageName(i)
  }

  function JavaPagePath(i: nat): string
    requires i < 0x100
  {
    "assets/viabedrock/textures/font/" + AsciiLower(PageName(i))
  }

  function ProviderFile(i: nat): string
    requires i < 0x100
  {
    "viabedrock:font/" + AsciiLower(PageName(i))
  }

  /** The lower-cased page name spells the page number in lower-case hex. */
  lemma LowerPageName(i: nat)
    requires i < 0x100
    ensures AsciiLower(PageName(i)) == "glyph_" + [LowerHexDigit(i / 16), LowerHexDigit(i % 16)] + ".png"
  {
    var d1, d2 := i / 16, i % 16;
    assert PageName(i) == "glyph_" + [UpperHexDigit(d1), UpperHexDigit(d2)] + ".png";
    assert AsciiLower(PageName(i))[6] == LowerHexDigit(d1);
    assert AsciiLower(PageName(i))[7] == LowerHexDigit(d2);
  }

  lemma LowerHexDigitInjective(d: nat, e: nat)
    requires d < 16 && e < 16 && LowerHexDigit(d) == LowerHexDigit(e)
    ensures d == e
  {
  }

  /** Different pages have different provider files, so replacing by file
      never removes another page's provider. */
  lemma ProviderFileInjective(i: nat, j: nat)
    requires i < 0x100 && j < 0x100 && ProviderFile(i) == ProviderFile(j)
    ensures i == j
  {
    LowerPageName(i);
    LowerPageName(j);
    assert ProviderFile(i)[22] == LowerHexDigit(i / 16) && ProviderFile(j)[22] == LowerHexDigit(j / 16);
    assert ProviderFile(i)[23] == LowerHexDigit(i % 16) && ProviderFile(j)[23] == LowerHexDigit(j % 16);
    LowerHexDigitInjective(i / 16, j / 16);
    LowerHexDigitInjective(i % 16, j % 16);
  }

  lemma UpperHexDigitInjective(d: nat, e: nat)
    requires d < 16 && e < 16 && UpperHexDigit(d) == UpperHexDigit(e)
    ensures d == e
  {
  }

  /** The hex digits of a page sit at positions 11 and 12 of its path. */
  lemma BedrockPagePathDigits(i: nat)
    requires i < 0x100
    ensures BedrockPagePath(i)[11] == UpperHexDigit(i / 16) && BedrockPagePath(i)[12] == UpperHexDigit(i % 16)
  {
    assert BedrockPagePath(i) == "font/glyph_" + [UpperHexDigit(i / 16), UpperHexDigit(i % 16)] + ".png";
  }

  /** Different pages are read from different Bedrock paths. */
  lemma BedrockPagePathInjective(i: nat, j: nat)
    requires i < 0x100 && j < 0x100 && BedrockPagePath(i) == BedrockPagePath(j)
    ensures i == j
  {
    BedrockPagePathDigits(i);
    BedrockPagePathDigits(j);
    UpperHexDigitInjective(i / 16, j / 16);
    UpperHexDigitInjective(i % 16, j % 16);
  }

  // ---------------------------------------------------------------- the glyph table

  /** `(char) (i << 8 | idx)` with `idx = c * 16 + r`: the page number in
      the high byte, the glyph index in the low one. The two bit ranges are
      disjoint, so the `|` is a sum. */
  function GlyphChar(i: nat, c: nat, r: nat): CodeUnit
    requires i < 0x100 && c < GlyphsPerColumn && r < GlyphsPerRow
  {
    i * 0x100 + (c * GlyphsPerColumn + r)
  }

  /** A glyph's code unit gives back its page, row and column. */
  lemma GlyphCharDecode(i: nat, c: nat, r: nat)
    requires i < 0x100 && c < 16 && r < 16
    ensures GlyphChar(i, c, r) / 0x100 == i
    ensures (GlyphChar(i, c, r) % 0x100) / 16 == c
    ensures GlyphChar(i, c, r) % 16 == r
  {
    var u := GlyphChar(i, c, r);
    assert u == i * 0x100 + (c * 16 + r);
    assert u == (i * 16 + c) * 16 + r;
  }

  /** The `chars` rows of page `i`. */
  function GlyphTable(i: nat): (rows: seq<seq<CodeUnit>>)
    requires i < 0x100
    ensures |rows| == GlyphsPerColumn
    ensures forall c :: 0 <= c < |rows| ==> |rows[c]| == GlyphsPerRow
  {
    seq(GlyphsPerColumn, c requires 0 <= c < GlyphsPerColumn =>
      seq(GlyphsPerRow, r requires 0 <= r < GlyphsPerRow => GlyphChar(i, c, r)))
  }

  /** Every code unit whose high byte is `i` appears in page `i`'s table,
      at the row and column its low byte names, and nowhere else. */
  lemma GlyphTableCovers(i: nat, u: int)
    requires i < 0x100 && i * 0x100 <= u < i * 0x100 + 0x100
    ensures var c, r := (u - i * 0x100) / 16, (u - i * 0x100) % 16;
      0 <= c < 16 && GlyphTable(i)[c][r] == u
    ensures forall c, r :: 0 <= c < 16 && 0 <= r < 16 && GlyphTable(i)[c][r] == u ==>
      c == (u - i * 0x100) / 16 && r == (u - i * 0x100) % 16
  {
    forall c, r | 0 <= c < 16 && 0 <= r < 16 && GlyphTable(i)[c][r] == u
      ensures c == (u - i * 0x100) / 16 && r == (u - i * 0x100) % 16
    {
      assert u - i * 0x100 == c * 16 + r;
    }
  }

  /** The row loops of `convertGlyphSheets`: a `StringBuilder` per row. */
  method BuildChars(i: nat) returns (chars: seq<seq<CodeUnit>>)
    requires i < PageLimit
    ensures chars == GlyphTable(i)
  {
    chars := [];
    for c := 0 to GlyphsPerColumn
      invariant |chars| == c
      invariant forall k :: 0 <= k < c ==> chars[k] == GlyphTable(i)[k]
    {
      var row: seq<CodeUnit> := [];
      for r := 0 to GlyphsPerRow
        invariant |row| == r
        invariant forall k :: 0 <= k < r ==> row[k] == GlyphChar(i, c, k)
      {
        var idx := c * GlyphsPerColumn + r;
        row := row + [i * 0x100 + idx];
      }
      chars := chars + [row];
    }
  }

  // ---------------------------------------------------------------- providers

  /** The provider list with the first provider for `file` taken out. */
  function WithoutFirst(providers: seq<Provider>, file: string): (r: seq<Provider>)
    ensures |r| == |providers| || |r| == |providers| - 1
  {
    if providers == [] then []
    else if providers[0].file == file then providers[1..]
    else [providers[0]] + WithoutFirst(providers[1..], file)
  }

  predicate HasFile(providers: seq<Provider>, file: string)
  {
    exists k :: 0 <= k < |providers| && providers[k].file == file
  }

  predicate DistinctFiles(providers: seq<Provider>)
  {
    forall a, b :: 0 <= a < b < |providers| ==> providers[a].file != providers[b].file
  }

  /** Exactly one provider goes when one has the file, none otherwise. */
  lemma {:induction false} WithoutFirstLength(providers: seq<Provider>, file: string)
    ensures HasFile(providers, file) <==> |WithoutFirst(providers, file)| == |providers| - 1
  {
    if providers != [] && providers[0].file != file {
      WithoutFirstLength(providers[1..], file);
      if HasFile(providers, file) {
        var k :| 0 <= k < |providers| && providers[k].file == file;
        assert providers[1..][k - 1].file == file;
      }
      if HasFile(providers[1..], file) {
        var k :| 0 <= k < |providers| - 1 && providers[1..][k].file == file;
        assert providers[k + 1].file == file;
      }
    }
  }

  /** The providers left are among those there were. */
  lemma {:induction false} WithoutFirstSubset(providers: seq<Provider>, file: string)
    ensures forall p :: p in WithoutFirst(providers, file) ==> p in providers
  {
    if providers != [] && providers[0].file != file {
      WithoutFirstSubset(providers[1..], file);
    }
  }

  /** In a list without repeated files, removing the first provider for
      `file` leaves none for it and repeats no file. */
  lemma {:induction false} WithoutFirstDistinct(providers: seq<Provider>, file: string)
    requires DistinctFiles(providers)
    ensures DistinctFiles(WithoutFirst(providers, file)) && !HasFile(WithoutFirst(providers, file), file)
  {
    if providers != [] {
      var rest := providers[1..];
      assert DistinctFiles(rest) by {
        forall a, b | 0 <= a < b < |rest| ensures rest[a].file != rest[b].file {
          assert providers[a + 1] == rest[a] && providers[b + 1] == rest[b];
        }
      }
      if providers[0].file == file {
        forall k | 0 <= k < |rest| ensures rest[k].file != file {
          assert providers[k + 1] == rest[k];
        }
      } else {
        WithoutFirstDistinct(rest, file);
        var w := WithoutFirst(rest, file);
        WithoutFirstSubset(rest, file);
        forall k | 0 <= k < |w| ensures w[k].file != providers[0].file {
          assert w[k] in rest;
          var j :| 0 <= j < |rest| && rest[j] == w[k];
          assert providers[j + 1] == w[k];
        }
        var q := [providers[0]] + w;
        forall a, b | 0 <= a < b < |q| ensures q[a].file != q[b].file {
          assert q[b] == w[b - 1];
          if a > 0 {
            assert q[a] == w[a - 1];
          }
        }
        forall k | 0 <= k < |q| ensures q[k].file != file {
          if k > 0 {
            assert q[k] == w[k - 1];
          }
        }
      }
    }
  }

  /** The loop that finds and removes the first provider for `file`. */
  method RemoveFirstProvider(providers: seq<Provider>, file: string) returns (r: seq<Provider>)
    ensures r == WithoutFirst(providers, file)
  {
    var k := 0;
    while k < |providers|
      invariant k <= |providers|
      invariant forall j :: 0 <= j < k ==> providers[j].file != file
    {
      if providers[k].file == file {
        WithoutFirstSkips(providers, file, k);
        return providers[..k] + providers[k + 1..];
      }
      k := k + 1;
    }
    WithoutFirstSkips(providers, file, k);
    r := providers;
  }

  lemma {:induction false} WithoutFirstSkips(providers: seq<Provider>, file: string, k: nat)
    requires k <= |providers| && forall j :: 0 <= j < k ==> providers[j].file != file
    ensures k < |providers| && providers[k].file == file ==> WithoutFirst(providers, file) == providers[..k] + providers[k + 1..]
    ensures k == |providers| ==> WithoutFirst(providers, file) == providers
  {
    if k > 0 {
      WithoutFirstSkips(providers[1..], file, k - 1);
      assert providers[1..][..k - 1] == providers[1..k];
      assert providers[..k] == [providers[0]] + providers[1..k];
      if k < |providers| {
        assert providers[1..][k..] == providers[k + 1..];
      }
    } else if k == |providers| {
      assert providers == [];
    }
  }

  /** The provider appended for page `i` with sheet `img`: glyphs of a
      sixteenth of the sheet's height, ascent half of that plus 5. */
  function PageProvider<Img>(codecs: Codecs<Img>, i: nat, img: Img): (p: Provider)
    requires i < 0x100
    ensures p.file == ProviderFile(i)
    ensures 16 * p.height <= codecs.height(img) < 16 * p.height + 16
    ensures 2 * (p.ascent - 5) <= p.height < 2 * (p.ascent - 5) + 2
  {
    var glyphHeight := Quot(codecs.height(img), GlyphsPerColumn);
    Provider(ProviderFile(i), Quot(glyphHeight, 2) + 5, glyphHeight, GlyphTable(i))
  }

  // ---------------------------------------------------------------- converting glyph sheets

  /** The state of the page loop: the Java files, the provider list and the
      Bedrock path of a sheet that could not be read, after which the
      source throws. */
  datatype GlyphPass = GlyphPass(files: map<string, seq<Byte>>, providers: seq<Provider>, failed: Option<string>)

  /** One page of the loop. */
  function GlyphPage<Img>(bedrock: map<string, seq<Byte>>, codecs: Codecs<Img>, p: GlyphPass, i: nat): GlyphPass
    requires i < 0x100
  {
    if p.failed.Some? || BedrockPagePath(i) !in bedrock then p
    else match codecs.decodeImage(bedrock[BedrockPagePath(i)])
      case Unreadable => p.(failed := Some(BedrockPagePath(i)))
      case NoReader => p.(failed := Some(BedrockPagePath(i)))
      case Image(img) =>
        GlyphPass(p.files[JavaPagePath(i) := codecs.encodeImage(img)],
                  WithoutFirst(p.providers, ProviderFile(i)) + [PageProvider(codecs, i, img)], None)
  }

  /** Pages `0 .. n - 1` of the loop. */
  function GlyphPages<Img>(bedrock: map<string, seq<Byte>>, codecs: Codecs<Img>, start: GlyphPass, n: nat): GlyphPass
    requires n <= 0x100
  {
    if n == 0 then start else GlyphPage(bedrock, codecs, GlyphPages(bedrock, codecs, start, n - 1), n - 1)
  }

  /** The provider list `default.json` already holds, or a new one. */
  function InitialProviders<Img>(codecs: Codecs<Img>, files: map<string, seq<Byte>>): Result<seq<Provider>, RewriteError>
  {
    if DefaultsPath !in files then Ok([])
    else match codecs.decodeJson(files[DefaultsPath])
      case Some(FontDefaults(providers)) => Ok(providers)
      case _ => Err(FontDefaultsUnreadable)
  }

  /** The Java files after `convertGlyphSheets`, and the failure it ends
      with, if any. */
  datatype Outcome = Outcome(files: map<string, seq<Byte>>, error: Option<RewriteError>)

  function GlyphSheets<Img>(bedrock: map<string, seq<Byte>>, codecs: Codecs<Img>, files: map<string, seq<Byte>>): Outcome
  {
    match InitialProviders(codecs, files)
    case Err(e) => Outcome(files, Some(e))
    case Ok(providers) => PagesOutcome(bedrock, codecs, files, providers)
  }

  /** The page loop from the initial providers, then `default.json` written
      when a provider exists. */
  function PagesOutcome<Img>(bedrock: map<string, seq<Byte>>, codecs: Codecs<Img>, files: map<string, seq<Byte>>, providers: seq<Provider>): Outcome
  {
    Finish(codecs, GlyphPages(bedrock, codecs, GlyphPass(files, providers, None), PageLimit))
  }

  /** After the loop: a failed sheet is the outcome, otherwise
      `default.json` is written when a provider exists. */
  function Finish<Img>(codecs: Codecs<Img>, p: GlyphPass): Outcome
  {
    if p.failed.Some? then Outcome(p.files, Some(GlyphSheetUnreadable(p.failed.value)))
    else if p.providers == [] then Outcome(p.files, None)
    else Outcome(p.files[DefaultsPath := codecs.encodeJson(FontDefaults(p.providers))], None)
  }

  /** `convertGlyphSheets`. */
  method ConvertGlyphSheets<Img>(bedrock: map<string, seq<Byte>>, java: Content, codecs: Codecs<Img>) returns (error: Option<RewriteError>)
    modifies java
    ensures java.files == GlyphSheets(bedrock, codecs, old(java.files)).files
    ensures error == GlyphSheets(bedrock, codecs, old(java.files)).error
    ensures java.langCache == old(java.langCache)
  {
    var providers: seq<Provider> := [];
    if DefaultsPath in java.files {
      var root := codecs.decodeJson(java.files[DefaultsPath]);
      if !(root.Some? && root.value.FontDefaults?) {
        return Some(FontDefaultsUnreadable);
      }
      providers := root.value.providers;
    }
    error := ConvertGlyphPages(bedrock, java, codecs, providers);
  }

  /** The page loop of `convertGlyphSheets` and the final write. */
  method ConvertGlyphPages<Img>(bedrock: map<string, seq<Byte>>, java: Content, codecs: Codecs<Img>, initial: seq<Provider>) returns (error: Option<RewriteError>)
    modifies java
    ensures java.files == PagesOutcome(bedrock, codecs, old(java.files), initial).files
    ensures error == PagesOutcome(bedrock, codecs, old(java.files), initial).error
    ensures java.langCache == old(java.langCache)
  {
    var providers, failed := ConvertGlyphPageRange(bedrock, java, codecs, initial);
    error := FinishGlyphSheets(java, codecs, providers, failed);
  }

  /** Converts the glyph pages 0 .. PageLimit - 1 in order, stopping at the first page that fails. */
  method ConvertGlyphPageRange<Img>(bedrock: map<string, seq<Byte>>, java: Content, codecs: Codecs<Img>, initial: seq<Provider>)
    returns (providers: seq<Provider>, failed: Option<string>)
    modifies java
    ensures GlyphPages(bedrock, codecs, GlyphPass(old(java.files), initial, None), PageLimit) == GlyphPass(java.files, providers, failed)
    ensures java.langCache == old(java.langCache)
  {
    providers := initial;
    failed := None;
    ghost var start := GlyphPass(java.files, providers, None);
    var i := 0;
    while i < PageLimit && failed.None?
      invariant i <= PageLimit
      invariant GlyphPages(bedrock, codecs, start, i) == GlyphPass(java.files, providers, failed)
      invariant java.langCache == old(java.langCache)
    {
      providers, failed := ConvertGlyphPage(bedrock, java, codecs, start, providers, i);
      i := i + 1;
    }
    if failed.Some? {
      FailedStays(bedrock, codecs, start, i, PageLimit);
    }
  }


  /** The end of `convertGlyphSheets`: the failure, or the write of
      `default.json` when a provider exists. */
  method FinishGlyphSheets<Img>(java: Content, codecs: Codecs<Img>, providers: seq<Provider>, failed: Option<string>) returns (error: Option<RewriteError>)
    modifies java
    ensures java.files == Finish(codecs, GlyphPass(old(java.files), providers, failed)).files
    ensures error == Finish(codecs, GlyphPass(old(java.files), providers, failed)).error
    ensures java.langCache == old(java.langCache)
  {
    if failed.Some? {
      error := Some(GlyphSheetUnreadable(failed.value));
    } else if providers == [] {
      error := None;
    } else {
      var _ := java.Put(DefaultsPath, codecs.encodeJson(FontDefaults(providers)));
      error := None;
    }
  }

  /** One iteration of the page loop of `convertGlyphSheets`. */
  method ConvertGlyphPage<Img>(bedrock: map<string, seq<Byte>>, java: Content, codecs: Codecs<Img>, ghost start: GlyphPass, providers: seq<Provider>, i: nat)
    returns (after: seq<Provider>, failed: Option<string>)
    requires i < PageLimit && GlyphPages(bedrock, codecs, start, i) == GlyphPass(java.files, providers, None)
    modifies java
    ensures GlyphPages(bedrock, codecs, start, i + 1) == GlyphPass(java.files, after, failed)
    ensures java.langCache == old(java.langCache)
  {
    after, failed := providers, None;
    var bedrockPath := "font/" + PageName(i);
    assert GlyphPages(bedrock, codecs, start, i + 1) == GlyphPage(bedrock, codecs, GlyphPass(java.files, providers, None), i);
    if bedrockPath !in bedrock {
      return;
    }
    var javaPath := "assets/viabedrock/textures/font/" + AsciiLower(PageName(i));
    var image := codecs.decodeImage(bedrock[bedrockPath]);
    if !image.Image? {
      return providers, Some(bedrockPath);
    }
    var _ := java.Put(javaPath, codecs.encodeImage(image.image));
    var glyphHeight := Quot(codecs.height(image.image), GlyphsPerColumn);
    var file := "viabedrock:font/" + AsciiLower(PageName(i));
    after := RemoveFirstProvider(providers, file);
    var chars := BuildChars(i);
    after := after + [Provider(file, Quot(glyphHeight, 2) + 5, glyphHeight, chars)];
  }

  /** Once a sheet fails, later pages change nothing. */
  lemma {:induction false} FailedStays<Img>(bedrock: map<string, seq<Byte>>, codecs: Codecs<Img>, start: GlyphPass, m: nat, n: nat)
    requires m <= n <= 0x100 && GlyphPages(bedrock, codecs, start, m).failed.Some?
    ensures GlyphPages(bedrock, codecs, start, n) == GlyphPages(bedrock, codecs, start, m)
  {
    if n > m {
      FailedStays(bedrock, codecs, start, m, n - 1);
    }
  }

  /** Page 0xFF, the only one at or past the loop's limit, is never
      examined: its sheet, present or not, changes nothing. */
  lemma LastPageIgnored<Img>(bedrock: map<string, seq<Byte>>, codecs: Codecs<Img>, start: GlyphPass, sheet: seq<Byte>, last: nat, n: nat)
    requires PageLimit <= last < 0x100 && n <= PageLimit
    ensures GlyphPages(bedrock[BedrockPagePath(last) := sheet], codecs, start, n) == GlyphPages(bedrock, codecs, start, n)
  {
    var changed := bedrock[BedrockPagePath(last) := sheet];
    forall i | 0 <= i < n
      ensures SameSheet(changed, bedrock, i)
    {
      OtherPagePath(i, last);
    }
    GlyphPagesAgree(changed, bedrock, codecs, start, n);
  }

  lemma OtherPagePath(i: nat, j: nat)
    requires i < 0x100 && j < 0x100 && i != j
    ensures BedrockPagePath(i) != BedrockPagePath(j)
  {
    if BedrockPagePath(i) == BedrockPagePath(j) {
      BedrockPagePathInjective(i, j);
    }
  }

  /** Two Bedrock packs hold the same sheet, or none, for page `i`. */
  predicate SameSheet(b1: map<string, seq<Byte>>, b2: map<string, seq<Byte>>, i: nat)
    requires i < 0x100
  {
    var path := BedrockPagePath(i);
    (path in b1 <==> path in b2) && (path in b1 ==> b1[path] == b2[path])
  }

  /** A page only reads its own sheet: packs that agree on the sheets of
      pages `0 .. n - 1` convert them alike. */
  lemma {:induction false} GlyphPagesAgree<Img>(b1: map<string, seq<Byte>>, b2: map<string, seq<Byte>>, codecs: Codecs<Img>, start: GlyphPass, n: nat)
    requires n <= 0x100
    requires forall i :: 0 <= i < n ==> SameSheet(b1, b2, i)
    ensures GlyphPages(b1, codecs, start, n) == GlyphPages(b2, codecs, start, n)
  {
    if n > 0 {
      GlyphPagesAgree(b1, b2, codecs, start, n - 1);
      assert SameSheet(b1, b2, n - 1);
    }
  }

  /** A provider list without repeated files keeps that property, and every
      converted page has exactly one provider, its own. */
  lemma {:induction false} GlyphPagesDistinct<Img>(bedrock: map<string, seq<Byte>>, codecs: Codecs<Img>, start: GlyphPass, n: nat)
    requires n <= 0x100 && DistinctFiles(start.providers)
    ensures DistinctFiles(GlyphPages(bedrock, codecs, start, n).providers)
  {
    if n > 0 {
      GlyphPagesDistinct(bedrock, codecs, start, n - 1);
      var p := GlyphPages(bedrock, codecs, start, n - 1);
      var i := n - 1;
      if p.failed.None? && BedrockPagePath(i) in bedrock && codecs.decodeImage(bedrock[BedrockPagePath(i)]).Image? {
        var w := WithoutFirst(p.providers, ProviderFile(i));
        WithoutFirstDistinct(p.providers, ProviderFile(i));
        var q := w + [PageProvider(codecs, i, codecs.decodeImage(bedrock[BedrockPagePath(i)]).image)];
        forall a, b | 0 <= a < b < |q| ensures q[a].file != q[b].file {
          if b == |w| {
            assert q[a] == w[a];
          } else {
            assert q[a] == w[a] && q[b] == w[b];
          }
        }
      }
    }
  }

  /** A sheet that is read puts its image and leaves a provider for its
      page at the end of the list. */
  lemma GlyphPageConverted<Img>(bedrock: map<string, seq<Byte>>, codecs: Codecs<Img>, p: GlyphPass, i: nat)
    requires i < 0x100 && p.failed.None? && BedrockPagePath(i) in bedrock
    requires codecs.decodeImage(bedrock[BedrockPagePath(i)]).Image?
    ensures var q := GlyphPage(bedrock, codecs, p, i);
      var img := codecs.decodeImage(bedrock[BedrockPagePath(i)]).image;
      && q.failed.None?
      && q.files[JavaPagePath(i)] == codecs.encodeImage(img)
      && q.providers != [] && q.providers[|q.providers| - 1] == PageProvider(codecs, i, img)
      && q.providers[|q.providers| - 1].chars == GlyphTable(i)
  {
  }

  /** Pages with no sheet change nothing. */
  lemma {:induction false} NoSheetsNoChange<Img>(bedrock: map<string, seq<Byte>>, codecs: Codecs<Img>, start: GlyphPass, n: nat)
    requires n <= 0x100 && forall i :: 0 <= i < n ==> BedrockPagePath(i) !in bedrock
    ensures GlyphPages(bedrock, codecs, start, n) == start
  {
    if n > 0 {
      NoSheetsNoChange(bedrock, codecs, start, n - 1);
    }
  }

  /** `default.json` is written only when the provider list is not empty: a
      pack without glyph sheets, converted before any other, leaves the
      Java files as they were. */
  lemma NoSheetsNoDefaults<Img>(bedrock: map<string, seq<Byte>>, codecs: Codecs<Img>, files: map<string, seq<Byte>>)
    requires DefaultsPath !in files
    requires forall i :: 0 <= i < PageLimit ==> BedrockPagePath(i) !in bedrock
    ensures GlyphSheets(bedrock, codecs, files) == Outcome(files, None)
  {
    NoSheetsNoChange(bedrock, codecs, GlyphPass(files, [], None), PageLimit);
  }

  // ---------------------------------------------------------------- UI textures

  /** A Bedrock path `convertUITextures` looks at. */
  predicate IsUiImagePath(path: string)
  {
    StartsWith(path, "textures/ui") && (EndsWith(path, ".png") || EndsWith(path, ".jpg"))
  }

  /** The path with every ".png" and then every ".jpg" removed. */
  function StripExtensions(path: string): string
  {
    ReplaceAll(ReplaceAll(path, ".png", ""), ".jpg", "")
  }

  /** The `.json` beside the image, which marks a texture already used to
      customise the HUD. */
  function SiblingJson(path: string): string
  {
    ReplaceAll(ReplaceAll(path, ".png", ".json"), ".jpg", ".json")
  }

  /** Replacing a target that does not start the text keeps its first
      element. */
  lemma ReplaceAllKeepsHead(s: string, target: string, replacement: string)
    requires s != [] && target != [] && target[0] != s[0]
    ensures ReplaceAll(s, target, replacement) != [] && ReplaceAll(s, target, replacement)[0] == s[0]
  {
    assert !OccursAt(s, target, 0);
  }

  /** Splitting text that starts with something other than the separator
      gives at least one piece. */
  lemma SplitNotEmpty(s: string, c: char)
    requires s != [] && s[0] != c
    ensures Split(s, c) != []
  {
    if c in s {
      var all := SplitAll(s, c);
      var i := FirstIndex(s, c);
      assert i > 0;
      assert all[0] == s[..i];
      assert all[0] != [];
    }
  }

  /** `path.split("/")`'s last piece, after the extensions are removed. */
  function SimpleName(path: string): (name: string)
    requires IsUiImagePath(path)
  {
    assert path[0] == 't' by { assert path[..11][0] == 't'; }
    ReplaceAllKeepsHead(path, ".png", "");
    ReplaceAllKeepsHead(ReplaceAll(path, ".png", ""), ".jpg", "");
    SplitNotEmpty(StripExtensions(path), '/');
    var parts := Split(StripExtensions(path), '/');
    parts[|parts| - 1]
  }

  /** `Math.abs` on an `int`: the most negative value is its own absolute
      value. */
  function JavaAbs(x: Int32): (r: Int32)
    ensures x != INT_MIN ==> r == Abs(x) && r >= 0
    ensures x == INT_MIN ==> r == INT_MIN
  {
    if x == INT_MIN then INT_MIN else Abs(x)
  }

  /** `Math.abs(("ui/" + simpleName).hashCode()) + 1`, in `int` arithmetic. */
  function ModelData<Img>(codecs: Codecs<Img>, simpleName: string): Int32
  {
    Wrap32(JavaAbs(codecs.hash("ui/" + simpleName)) + 1)
  }

  /** The model data is positive except for three hash values: the `int`
      bounds and the negated maximum, for which `abs` plus one overflows. */
  lemma ModelDataPositive<Img>(codecs: Codecs<Img>, simpleName: string)
    ensures var h := codecs.hash("ui/" + simpleName);
      ModelData(codecs, simpleName) > 0 <==> h != INT_MIN && h != INT_MAX && h != -INT_MAX
    ensures var h := codecs.hash("ui/" + simpleName);
      h == INT_MIN ==> ModelData(codecs, simpleName) == INT_MIN + 1
    ensures var h := codecs.hash("ui/" + simpleName);
      (h == INT_MAX || h == -INT_MAX) ==> ModelData(codecs, simpleName) == INT_MIN
  {
    var h := codecs.hash("ui/" + simpleName);
    if h == INT_MIN {
      assert ModelData(codecs, simpleName) == Wrap32(INT_MIN + 1);
    } else if Abs(h) == INT_MAX {
      assert ModelData(codecs, simpleName) == Wrap32(INT_MAX + 1);
      Wrap32Congruent(INT_MAX + 1, INT_MIN);
    }
  }

  function DigitChar(d: nat): char
    requires d < 10
  {
    "0123456789"[d]
  }

  function Digits(n: nat): (s: string)
    ensures s != []
    ensures forall k :: 0 <= k < |s| ==> '0' <= s[k] <= '9'
  {
    if n < 10 then [DigitChar(n)] else Digits(n / 10) + [DigitChar(n % 10)]
  }

  /** `Integer.toString`. */
  function DecimalString(n: int): (s: string)
    ensures s != []
  {
    if n < 0 then "-" + Digits(-n) else Digits(n)
  }

  function DigitsValue(s: string): int
  {
    if s == [] then 0 else 10 * DigitsValue(s[..|s| - 1]) + (s[|s| - 1] as int - '0' as int)
  }

  /** The decimal digits read back as the number they spell. */
  lemma {:induction false} DigitsRoundTrip(n: nat)
    ensures DigitsValue(Digits(n)) == n
  {
    if n >= 10 {
      DigitsRoundTrip(n / 10);
      assert Digits(n)[..|Digits(n)| - 1] == Digits(n / 10);
    }
  }

  /** A converted UI texture: its model data, its item name and image. */
  datatype UiTexture<Img> = UiTexture(modelData: Int32, name: string, image: Img)

  /** The texture `convertUITextures` makes of one Bedrock entry, if any:
      a `textures/ui` PNG or JPEG that ImageIO reads, of at least 256
      pixels by `int` multiplication, without a `.json` beside it. An
      entry no reader claims is skipped; one ImageIO throws on ends the
      loop (`UiAborts`). */
  function UiTextureOf<Img>(bedrock: map<string, seq<Byte>>, codecs: Codecs<Img>, path: string): Option<UiTexture<Img>>
    requires path in bedrock
  {
    if !IsUiImagePath(path) then None
    else match codecs.decodeImage(bedrock[path])
      case Unreadable => None
      case NoReader => None
      case Image(image) =>
        if Wrap32(codecs.height(image) * codecs.width(image)) < 256 then None
        else if SiblingJson(path) in bedrock then None
        else
          var modelData := ModelData(codecs, SimpleName(path));
          Some(UiTexture(modelData, SimpleName(path) + DecimalString(JavaAbs(modelData)), image))
  }

  /** A `textures/ui` PNG or JPEG on which ImageIO throws: `getImage`
      rethrows, and the conversion of every pack fails. */
  predicate UiAborts<Img>(bedrock: map<string, seq<Byte>>, codecs: Codecs<Img>, path: string)
    requires path in bedrock
  {
    IsUiImagePath(path) && codecs.decodeImage(bedrock[path]).Unreadable?
  }

  /** The entry the texture loop throws on, if any: the first that aborts
      in iteration order. */
  function FirstUnreadable<Img>(bedrock: map<string, seq<Byte>>, codecs: Codecs<Img>, order: seq<string>): Option<string>
    requires forall k :: 0 <= k < |order| ==> order[k] in bedrock
  {
    if order == [] then None
    else match FirstUnreadable(bedrock, codecs, order[..|order| - 1])
      case Some(path) => Some(path)
      case None => if UiAborts(bedrock, codecs, order[|order| - 1]) then Some(order[|order| - 1]) else None
  }

  /** The loop throws exactly when some entry aborts, and then on the first
      such entry. */
  lemma {:induction false} FirstUnreadableSpec<Img>(bedrock: map<string, seq<Byte>>, codecs: Codecs<Img>, order: seq<string>)
    requires forall k :: 0 <= k < |order| ==> order[k] in bedrock
    ensures FirstUnreadable(bedrock, codecs, order).None? <==> forall k :: 0 <= k < |order| ==> !UiAborts(bedrock, codecs, order[k])
    ensures FirstUnreadable(bedrock, codecs, order).Some? ==> exists k ::
      0 <= k < |order| && order[k] == FirstUnreadable(bedrock, codecs, order).value &&
      UiAborts(bedrock, codecs, order[k]) && forall j :: 0 <= j < k ==> !UiAborts(bedrock, codecs, order[j])
  {
    if order != [] {
      var init := order[..|order| - 1];
      FirstUnreadableSpec(bedrock, codecs, init);
      assert forall k :: 0 <= k < |init| ==> init[k] == order[k];
      if FirstUnreadable(bedrock, codecs, init).Some? {
        var k :| 0 <= k < |init| && init[k] == FirstUnreadable(bedrock, codecs, init).value &&
          UiAborts(bedrock, codecs, init[k]) && forall j :: 0 <= j < k ==> !UiAborts(bedrock, codecs, init[j]);
        assert order[k] == init[k];
      }
    }
  }

  lemma FirstUnreadableSnoc<Img>(bedrock: map<string, seq<Byte>>, codecs: Codecs<Img>, order: seq<string>, k: nat)
    requires k < |order| && forall j :: 0 <= j < |order| ==> order[j] in bedrock
    requires FirstUnreadable(bedrock, codecs, order[..k]).None?
    ensures FirstUnreadable(bedrock, codecs, order[..k + 1]) ==
      if UiAborts(bedrock, codecs, order[k]) then Some(order[k]) else None
  {
    assert order[..k + 1][..k] == order[..k];
  }

  /** Once an entry aborted, later entries change nothing. */
  lemma {:induction false} FirstUnreadableStays<Img>(bedrock: map<string, seq<Byte>>, codecs: Codecs<Img>, order: seq<string>, n: nat)
    requires n <= |order| && forall k :: 0 <= k < |order| ==> order[k] in bedrock
    requires FirstUnreadable(bedrock, codecs, order[..n]).Some?
    ensures FirstUnreadable(bedrock, codecs, order) == FirstUnreadable(bedrock, codecs, order[..n])
    decreases |order| - n
  {
    if n < |order| {
      assert order[..n + 1][..n] == order[..n];
      FirstUnreadableStays(bedrock, codecs, order, n + 1);
    } else {
      assert order[..n] == order;
    }
  }

  /** The converted textures, in iteration order. */
  function UiTextures<Img>(bedrock: map<string, seq<Byte>>, codecs: Codecs<Img>, order: seq<string>): seq<UiTexture<Img>>
    requires forall k :: 0 <= k < |order| ==> order[k] in bedrock
  {
    if order == [] then []
    else
      var init := UiTextures(bedrock, codecs, order[..|order| - 1]);
      match UiTextureOf(bedrock, codecs, order[|order| - 1])
      case None => init
      case Some(t) => init + [t]
  }

  /** The candidate of every entry, in iteration order. */
  function Candidates<Img>(bedrock: map<string, seq<Byte>>, codecs: Codecs<Img>, order: seq<string>): (c: seq<Option<UiTexture<Img>>>)
    requires forall k :: 0 <= k < |order| ==> order[k] in bedrock
    ensures |c| == |order|
    ensures forall k :: 0 <= k < |order| ==> c[k] == UiTextureOf(bedrock, codecs, order[k])
  {
    seq(|order|, k requires 0 <= k < |order| => UiTextureOf(bedrock, codecs, order[k]))
  }

  function Somes<T>(xs: seq<Option<T>>): seq<T>
  {
    if xs == [] then []
    else Somes(xs[..|xs| - 1]) + match xs[|xs| - 1] case None => [] case Some(t) => [t]
  }

  lemma {:induction false} SomesMember<T>(xs: seq<Option<T>>, t: T)
    ensures t in Somes(xs) <==> exists k :: 0 <= k < |xs| && xs[k] == Some(t)
  {
    if xs != [] {
      var init := xs[..|xs| - 1];
      SomesMember(init, t);
      assert Somes(xs) == Somes(init) + match xs[|xs| - 1] case None => [] case Some(u) => [u];
      if t in Somes(init) {
        var k :| 0 <= k < |init| && init[k] == Some(t);
        assert xs[k] == Some(t);
      }
      if exists k :: 0 <= k < |xs| && xs[k] == Some(t) {
        var k :| 0 <= k < |xs| && xs[k] == Some(t);
        if k < |init| {
          assert init[k] == Some(t);
        }
      }
    }
  }

  lemma {:induction false} UiTexturesAreSomes<Img>(bedrock: map<string, seq<Byte>>, codecs: Codecs<Img>, order: seq<string>)
    requires forall k :: 0 <= k < |order| ==> order[k] in bedrock
    ensures UiTextures(bedrock, codecs, order) == Somes(Candidates(bedrock, codecs, order))
  {
    if order != [] {
      var init := order[..|order| - 1];
      UiTexturesAreSomes(bedrock, codecs, init);
      assert Candidates(bedrock, codecs, order)[..|order| - 1] == Candidates(bedrock, codecs, init);
    }
  }

  /** Exactly the qualifying entries are converted: each texture comes from
      an entry of the order that passes every check, and each such entry
      gives a texture. */
  lemma UiTexturesFilter<Img>(bedrock: map<string, seq<Byte>>, codecs: Codecs<Img>, order: seq<string>, t: UiTexture<Img>)
    requires forall k :: 0 <= k < |order| ==> order[k] in bedrock
    ensures t in UiTextures(bedrock, codecs, order) <==>
      exists k :: 0 <= k < |order| && UiTextureOf(bedrock, codecs, order[k]) == Some(t)
  {
    UiTexturesAreSomes(bedrock, codecs, order);
    SomesMember(Candidates(bedrock, codecs, order), t);
  }

  /** When `order` lists every entry of the pack, every qualifying UI image
      becomes an item: its texture is converted and its item model is among
      the Java files. */
  lemma QualifyingTextureConverted<Img>(pack: map<string, seq<Byte>>, codecs: Codecs<Img>, order: seq<string>,
                                        files: map<string, seq<Byte>>, path: string)
    requires Listed(pack, order) && path in pack && UiTextureOf(pack, codecs, path).Some?
    ensures var t := UiTextureOf(pack, codecs, path).value;
      t in UiTextures(pack, codecs, order) &&
      ItemModelPath(t.name) in UiFiles(pack, codecs, order, files) &&
      UiFiles(pack, codecs, order, files)[ItemModelPath(t.name)] == codecs.encodeJson(ItemModel("minecraft:item/" + t.name))
  {
    var t := UiTextureOf(pack, codecs, path).value;
    var k :| 0 <= k < |order| && order[k] == path;
    assert UiTextureOf(pack, codecs, order[k]) == Some(t);
    UiTexturesFilter(pack, codecs, order, t);
    var textures := UiTextures(pack, codecs, order);
    TextureFilesModel(files, codecs, textures, t);
    ModelPathNotMapItem(t.name);
  }

  lemma ModelPathNotMapItem(name: string)
    ensures ItemModelPath(name) != MapItemPath
  {
    assert ItemModelPath(name)[24] == 'v';
  }

  /** Every texture of a run has its item model among the files written,
      naming its own item. */
  lemma {:induction false} TextureFilesModel<Img>(files: map<string, seq<Byte>>, codecs: Codecs<Img>, textures: seq<UiTexture<Img>>, t: UiTexture<Img>)
    requires t in textures
    ensures ItemModelPath(t.name) in TextureFiles(files, codecs, textures)
    ensures TextureFiles(files, codecs, textures)[ItemModelPath(t.name)] == codecs.encodeJson(ItemModel("minecraft:item/" + t.name))
  {
    var init, u := textures[..|textures| - 1], textures[|textures| - 1];
    assert textures == init + [u];
    if ItemModelPath(u.name) == ItemModelPath(t.name) {
      ItemModelPathInjective(u.name, t.name);
    } else {
      assert t in init;
      TextureFilesModel(files, codecs, init, t);
      assert ItemTexturePath(u.name)[17] == 't' && ItemModelPath(t.name)[17] == 'm';
    }
  }

  lemma ItemModelPathInjective(a: string, b: string)
    requires ItemModelPath(a) == ItemModelPath(b)
    ensures a == b
  {
    var prefix := "assets/minecraft/models/viabedrock/ui/";
    assert ItemModelPath(a) == prefix + a + ".json";
    assert a == ItemModelPath(a)[|prefix|..|prefix| + |a|];
    assert b == ItemModelPath(b)[|prefix|..|prefix| + |b|];
  }

  /** A texture is converted only from a `textures/ui` PNG or JPEG with no
      `.json` beside it, whose image has at least 256 pixels. */
  lemma UiTextureQualifies<Img>(bedrock: map<string, seq<Byte>>, codecs: Codecs<Img>, path: string)
    requires path in bedrock && UiTextureOf(bedrock, codecs, path).Some?
    ensures StartsWith(path, "textures/ui") && (EndsWith(path, ".png") || EndsWith(path, ".jpg"))
    ensures SiblingJson(path) !in bedrock
    ensures codecs.decodeImage(bedrock[path]).Image?
    ensures var image := codecs.decodeImage(bedrock[path]).image;
      Wrap32(codecs.height(image) * codecs.width(image)) >= 256
    ensures var t := UiTextureOf(bedrock, codecs, path).value;
      t.modelData == ModelData(codecs, SimpleName(path)) && StartsWith(t.name, SimpleName(path))
  {
    var t := UiTextureOf(bedrock, codecs, path).value;
    assert t.name[..|SimpleName(path)|] == SimpleName(path);
  }

  // ---------------------------------------------------------------- the map item

  predicate Ascending(s: seq<Int32>)
  {
    forall a, b :: 0 <= a < b < |s| ==> s[a] <= s[b]
  }

  function Insert(x: Int32, s: seq<Int32>): seq<Int32>
  {
    if s == [] || x <= s[0] then [x] + s else [s[0]] + Insert(x, s[1..])
  }

  lemma {:induction false} InsertMultiset(x: Int32, s: seq<Int32>)
    ensures multiset(Insert(x, s)) == multiset(s) + multiset{x}
  {
    if s != [] && x > s[0] {
      InsertMultiset(x, s[1..]);
      assert s == [s[0]] + s[1..];
    }
  }

  /** Inserting into an ascending list keeps it ascending. */
  lemma {:induction false} InsertAscending(x: Int32, s: seq<Int32>)
    requires Ascending(s)
    ensures Ascending(Insert(x, s))
  {
    if s != [] && x > s[0] {
      var tail := Insert(x, s[1..]);
      InsertAscending(x, s[1..]);
      InsertMultiset(x, s[1..]);
      var r := [s[0]] + tail;
      forall b | 0 < b < |r| ensures s[0] <= r[b] {
        assert r[b] == tail[b - 1];
        assert tail[b - 1] in multiset(tail);
        if tail[b - 1] != x {
          assert tail[b - 1] in multiset(s[1..]);
          var j :| 0 <= j < |s[1..]| && s[1..][j] == tail[b - 1];
          assert s[j + 1] == tail[b - 1];
        }
      }
      assert Insert(x, s) == r;
    }
  }

  /** `Collections.sort` on the model data. */
  function Sort(s: seq<Int32>): seq<Int32>
  {
    if s == [] then [] else Insert(s[|s| - 1], Sort(s[..|s| - 1]))
  }

  /** The sorted list is ascending and a permutation of its input,
      duplicates kept. */
  lemma {:induction false} SortSpec(s: seq<Int32>)
    ensures Ascending(Sort(s))
    ensures multiset(Sort(s)) == multiset(s)
  {
    if s != [] {
      var init, last := s[..|s| - 1], s[|s| - 1];
      SortSpec(init);
      InsertAscending(last, Sort(init));
      calc {
        multiset(Sort(s));
        multiset(Insert(last, Sort(init)));
        { InsertMultiset(last, Sort(init)); }
        multiset(Sort(init)) + multiset{last};
        multiset(init) + multiset{last};
        { assert s == init + [last]; }
        multiset(s);
      }
    }
  }

  /** The overrides of `map.json` for the sorted keys, each naming the
      model last stored for its model data. */
  function Overrides(sortedKeys: seq<Int32>, names: map<Int32, string>): (r: seq<Override>)
    requires forall k :: 0 <= k < |sortedKeys| ==> sortedKeys[k] in names
    ensures |r| == |sortedKeys|
    ensures forall k :: 0 <= k < |r| ==> r[k].customModelData == sortedKeys[k]
  {
    seq(|sortedKeys|, k requires 0 <= k < |sortedKeys| =>
      Override("viabedrock/ui/" + names[sortedKeys[k]], sortedKeys[k]))
  }

  const MapItemPath: string := "assets/minecraft/models/item/map.json"

  /** `putItemToPath`: the override loop, then `map.json`. */
  method PutItemToPath<Img>(java: Content, sortedKeys: seq<Int32>, names: map<Int32, string>, codecs: Codecs<Img>)
    requires forall k :: 0 <= k < |sortedKeys| ==> sortedKeys[k] in names
    modifies java
    ensures java.files == old(java.files)[MapItemPath := codecs.encodeJson(MapItem(Overrides(sortedKeys, names)))]
    ensures java.langCache == old(java.langCache)
  {
    var overrides: seq<Override> := [];
    for k := 0 to |sortedKeys|
      invariant overrides == Overrides(sortedKeys[..k], names)
    {
      overrides := overrides + [Override("viabedrock/ui/" + names[sortedKeys[k]], sortedKeys[k])];
    }
    assert sortedKeys[..|sortedKeys|] == sortedKeys;
    var _ := java.Put(MapItemPath, codecs.encodeJson(MapItem(overrides)));
  }

  function ItemTexturePath(name: string): string
  {
    "assets/minecraft/textures/item/" + name + ".png"
  }

  function ItemModelPath(name: string): string
  {
    "assets/minecraft/models/viabedrock/ui/" + name + ".json"
  }

  function Keys<Img>(textures: seq<UiTexture<Img>>): (keys: seq<Int32>)
    ensures |keys| == |textures|
    ensures forall k :: 0 <= k < |keys| ==> keys[k] == textures[k].modelData
  {
    seq(|textures|, k requires 0 <= k < |textures| => textures[k].modelData)
  }

  /** The item name per model data; a later texture with the same model
      data replaces an earlier one. */
  function Names<Img>(textures: seq<UiTexture<Img>>): (names: map<Int32, string>)
    ensures forall k :: 0 <= k < |textures| ==> textures[k].modelData in names
  {
    if textures == [] then map[]
    else
      var t := textures[|textures| - 1];
      Names(textures[..|textures| - 1])[t.modelData := t.name]
  }

  /** The image and item model of each texture, in order. */
  function TextureFiles<Img>(files: map<string, seq<Byte>>, codecs: Codecs<Img>, textures: seq<UiTexture<Img>>): map<string, seq<Byte>>
  {
    if textures == [] then files
    else
      var t := textures[|textures| - 1];
      TextureFiles(files, codecs, textures[..|textures| - 1])
        [ItemTexturePath(t.name) := codecs.encodeImage(t.image)]
        [ItemModelPath(t.name) := codecs.encodeJson(ItemModel("minecraft:item/" + t.name))]
  }

  /** The Java files after `convertUITextures`. */
  function UiFiles<Img>(bedrock: map<string, seq<Byte>>, codecs: Codecs<Img>, order: seq<string>, files: map<string, seq<Byte>>): map<string, seq<Byte>>
    requires forall k :: 0 <= k < |order| ==> order[k] in bedrock
  {
    var textures := UiTextures(bedrock, codecs, order);
    var written := TextureFiles(files, codecs, textures);
    if textures == [] then written
    else
      SortedKeysNamed(textures);
      written[MapItemPath := codecs.encodeJson(MapItem(Overrides(Sort(Keys(textures)), Names(textures))))]
  }

  /** Every sorted key names a texture. */
  lemma SortedKeysNamed<Img>(textures: seq<UiTexture<Img>>)
    ensures forall k :: 0 <= k < |Sort(Keys(textures))| ==> Sort(Keys(textures))[k] in Names(textures)
  {
    var keys := Sort(Keys(textures));
    SortSpec(Keys(textures));
    forall k | 0 <= k < |keys| ensures keys[k] in Names(textures) {
      assert keys[k] in multiset(Keys(textures));
      var j :| 0 <= j < |textures| && Keys(textures)[j] == keys[k];
    }
  }

  /** The name map is empty only when nothing was converted. */
  lemma NamesEmpty<Img>(textures: seq<UiTexture<Img>>)
    ensures |Names(textures)| == 0 <==> textures == []
  {
    if textures != [] {
      assert textures[0].modelData in Names(textures);
    }
  }

  /** The overrides of `map.json` list every converted texture's model data
      once per texture, in ascending order. */
  lemma OverridesAscending<Img>(textures: seq<UiTexture<Img>>)
    ensures var keys := Sort(Keys(textures));
      (forall k :: 0 <= k < |keys| ==> keys[k] in Names(textures)) &&
      var overrides := Overrides(keys, Names(textures));
      (forall a, b :: 0 <= a < b < |overrides| ==> overrides[a].customModelData <= overrides[b].customModelData) &&
      multiset(seq(|overrides|, k requires 0 <= k < |overrides| => overrides[k].customModelData)) == multiset(Keys(textures))
  {
    var keys := Sort(Keys(textures));
    SortSpec(Keys(textures));
    SortedKeysNamed(textures);
    var overrides := Overrides(keys, Names(textures));
    assert seq(|overrides|, k requires 0 <= k < |overrides| => overrides[k].customModelData) == keys;
  }

  lemma UiTexturesSnoc<Img>(bedrock: map<string, seq<Byte>>, codecs: Codecs<Img>, order: seq<string>, k: nat)
    requires k < |order| && forall j :: 0 <= j < |order| ==> order[j] in bedrock
    ensures UiTextures(bedrock, codecs, order[..k + 1]) ==
      UiTextures(bedrock, codecs, order[..k]) +
      match UiTextureOf(bedrock, codecs, order[k]) case None => [] case Some(t) => [t]
  {
    assert order[..k + 1][..k] == order[..k];
  }

  lemma TexturesSnoc<Img>(files: map<string, seq<Byte>>, codecs: Codecs<Img>, done: seq<UiTexture<Img>>, t: UiTexture<Img>)
    ensures Keys(done + [t]) == Keys(done) + [t.modelData]
    ensures Names(done + [t]) == Names(done)[t.modelData := t.name]
    ensures TextureFiles(files, codecs, done + [t]) == TextureFiles(files, codecs, done)
      [ItemTexturePath(t.name) := codecs.encodeImage(t.image)]
      [ItemModelPath(t.name) := codecs.encodeJson(ItemModel("minecraft:item/" + t.name))]
  {
    assert (done + [t])[..|done|] == done;
  }

  /** `convertUITextures`: the entry loop with its checks, then the sorted
      overrides when anything was converted. An image ImageIO throws on
      ends the loop with that failure. */
  method ConvertUITextures<Img>(bedrock: map<string, seq<Byte>>, order: seq<string>, java: Content, codecs: Codecs<Img>)
      returns (error: Option<RewriteError>)
    requires forall k :: 0 <= k < |order| ==> order[k] in bedrock
    modifies java
    ensures error == UiFailure(bedrock, codecs, order)
    ensures error.None? ==> java.files == UiFiles(bedrock, codecs, order, old(java.files))
    ensures java.langCache == old(java.langCache)
  {
    var keys, names;
    ghost var done;
    error, keys, names, done := ConvertUiEntries(bedrock, order, java, codecs);
    if error.Some? {
      return;
    }
    var sorted := Sort(keys);
    NamesEmpty(done);
    if |names| > 0 {
      SortedKeysNamed(done);
      PutItemToPath(java, sorted, names, codecs);
    }
  }

  /** The entry loop of `convertUITextures`: the image and item model of
      each converted texture, the model data in order and the name per
      model data. */
  method ConvertUiEntries<Img>(bedrock: map<string, seq<Byte>>, order: seq<string>, java: Content, codecs: Codecs<Img>)
      returns (error: Option<RewriteError>, keys: seq<Int32>, names: map<Int32, string>, ghost done: seq<UiTexture<Img>>)
    requires forall k :: 0 <= k < |order| ==> order[k] in bedrock
    modifies java
    ensures error == UiFailure(bedrock, codecs, order)
    ensures error.None? ==> done == UiTextures(bedrock, codecs, order) && keys == Keys(done) && names == Names(done)
    ensures error.None? ==> java.files == TextureFiles(old(java.files), codecs, done)
    ensures java.langCache == old(java.langCache)
  {
    names, keys, done := map[], [], [];
    for k := 0 to |order|
      invariant done == UiTextures(bedrock, codecs, order[..k])
      invariant FirstUnreadable(bedrock, codecs, order[..k]).None?
      invariant keys == Keys(done) && names == Names(done)
      invariant java.files == TextureFiles(old(java.files), codecs, done)
      invariant java.langCache == old(java.langCache)
    {
      var path := order[k];
      var texture, unreadable := UiTextureStep(bedrock, codecs, path);
      UiTexturesSnoc(bedrock, codecs, order, k);
      FirstUnreadableSnoc(bedrock, codecs, order, k);
      if unreadable {
        FirstUnreadableStays(bedrock, codecs, order, k + 1);
        return Some(UiTextureUnreadable(path)), keys, names, done;
      }
      if texture.None? {
        continue;
      }
      var t := texture.value;
      var _ := java.Put(ItemTexturePath(t.name), codecs.encodeImage(t.image));
      var _ := java.Put(ItemModelPath(t.name), codecs.encodeJson(ItemModel("minecraft:item/" + t.name)));
      keys := keys + [t.modelData];
      names := names[t.modelData := t.name];
      TexturesSnoc(old(java.files), codecs, done, t);
      done := done + [t];
    }
    assert order[..|order|] == order;
    error := None;
  }

  /** The failure `convertUITextures` ends with, if any. */
  function UiFailure<Img>(bedrock: map<string, seq<Byte>>, codecs: Codecs<Img>, order: seq<string>): Option<RewriteError>
    requires forall k :: 0 <= k < |order| ==> order[k] in bedrock
  {
    match FirstUnreadable(bedrock, codecs, order)
    case None => None
    case Some(path) => Some(UiTextureUnreadable(path))
  }

  /** The checks of one loop pass, in the source's order: whether ImageIO
      throws on the entry, and otherwise the texture it gives, if any. */
  method UiTextureStep<Img>(bedrock: map<string, seq<Byte>>, codecs: Codecs<Img>, path: string)
      returns (texture: Option<UiTexture<Img>>, unreadable: bool)
    requires path in bedrock
    ensures unreadable == UiAborts(bedrock, codecs, path)
    ensures texture == UiTextureOf(bedrock, codecs, path)
  {
    texture, unreadable := None, false;
    if !StartsWith(path, "textures/ui") || (!EndsWith(path, ".png") && !EndsWith(path, ".jpg")) {
      return;
    }
    var image := codecs.decodeImage(bedrock[path]);
    if image.Unreadable? {
      return None, true;
    }
    if image.NoReader? || Wrap32(codecs.height(image.image) * codecs.width(image.image)) < 256 {
      return;
    }
    var simpleName := SimpleName(path);
    if SiblingJson(path) in bedrock {
      return;
    }
    var modelData := ModelData(codecs, simpleName);
    texture := Some(UiTexture(modelData, simpleName + DecimalString(JavaAbs(modelData)), image.image));
  }

  // ---------------------------------------------------------------- the whole pack

  const PackMetaPath: string := "pack.mcmeta"
  const PackDescription: string := "ViaBedrock Resource Pack"

  /** `order` is an iteration order of `pack`'s entry set: it lists every
      path of the pack exactly once. */
  predicate Listed(pack: map<string, seq<Byte>>, order: seq<string>)
  {
    (forall k :: 0 <= k < |order| ==> order[k] in pack) &&
    (forall path :: path in pack ==> path in order) &&
    (forall j, k :: 0 <= j < k < |order| ==> order[j] != order[k])
  }

  /** The Java files after packs `0 .. n - 1`, bottom to top, or the first
      failure. */
  function Packs<Img>(packs: seq<map<string, seq<Byte>>>, orders: seq<seq<string>>, codecs: Codecs<Img>, n: nat): Result<map<string, seq<Byte>>, RewriteError>
    requires |orders| == |packs| && n <= |packs|
    requires forall p :: 0 <= p < |packs| ==> Listed(packs[p], orders[p])
  {
    if n == 0 then Ok(map[])
    else match Packs(packs, orders, codecs, n - 1)
      case Err(e) => Err(e)
      case Ok(files) => PackStep(packs[n - 1], orders[n - 1], codecs, files)
  }

  /** One pack: its glyph sheets, then its UI textures. */
  function PackStep<Img>(pack: map<string, seq<Byte>>, order: seq<string>, codecs: Codecs<Img>, files: map<string, seq<Byte>>): Result<map<string, seq<Byte>>, RewriteError>
    requires Listed(pack, order)
  {
    var glyphs := GlyphSheets(pack, codecs, files);
    if glyphs.error.Some? then Err(glyphs.error.value)
    else match UiFailure(pack, codecs, order)
      case Some(e) => Err(e)
      case None => Ok(UiFiles(pack, codecs, order, glyphs.files))
  }

  lemma PacksSnoc<Img>(packs: seq<map<string, seq<Byte>>>, orders: seq<seq<string>>, codecs: Codecs<Img>, n: nat, files: map<string, seq<Byte>>)
    requires |orders| == |packs| && n < |packs|
    requires forall p :: 0 <= p < |packs| ==> Listed(packs[p], orders[p])
    requires Packs(packs, orders, codecs, n) == Ok(files)
    ensures Packs(packs, orders, codecs, n + 1) == PackStep(packs[n], orders[n], codecs, files)
  {
  }

  /** One pack of `bedrockToJava`'s loop: its glyph sheets, then, when
      they succeed, its UI textures. */
  method ConvertPack<Img>(pack: map<string, seq<Byte>>, order: seq<string>, java: Content, codecs: Codecs<Img>) returns (error: Option<RewriteError>)
    requires Listed(pack, order)
    modifies java
    ensures error.Some? ==> PackStep(pack, order, codecs, old(java.files)) == Err(error.value)
    ensures error.None? ==> PackStep(pack, order, codecs, old(java.files)) == Ok(java.files)
  {
    error := ConvertGlyphSheets(pack, java, codecs);
    if error.None? {
      error := ConvertUITextures(pack, order, java, codecs);
    }
  }

  /** The Java pack `bedrockToJava` builds: every pack converted bottom to
      top, then `pack.mcmeta`, or the first failure. */
  function JavaPack<Img>(packs: seq<map<string, seq<Byte>>>, orders: seq<seq<string>>, codecs: Codecs<Img>, packFormat: int): Result<map<string, seq<Byte>>, RewriteError>
    requires |orders| == |packs|
    requires forall p :: 0 <= p < |packs| ==> Listed(packs[p], orders[p])
  {
    match Packs(packs, orders, codecs, |packs|)
    case Err(e) => Err(e)
    case Ok(files) => Ok(files[PackMetaPath := codecs.encodeJson(PackManifest(packFormat, PackDescription))])
  }

  /** `bedrockToJava`: every pack converted bottom to top into a new
      content, then the manifest, written last. `orders[p]` is the
      iteration order of pack `p`'s entries. */
  method BedrockToJava<Img>(packs: seq<map<string, seq<Byte>>>, orders: seq<seq<string>>, codecs: Codecs<Img>, packFormat: int) returns (r: Result<Content, RewriteError>)
    requires |orders| == |packs|
    requires forall p :: 0 <= p < |packs| ==> Listed(packs[p], orders[p])
    ensures r.Err? ==> JavaPack(packs, orders, codecs, packFormat) == Err(r.error)
    ensures r.Ok? ==> fresh(r.value) && JavaPack(packs, orders, codecs, packFormat) == Ok(r.value.files)
  {
    var java := new Content();
    var error := ConvertPacks(packs, orders, java, codecs);
    if error.Some? {
      return Err(error.value);
    }
    var _ := java.Put(PackMetaPath, codecs.encodeJson(PackManifest(packFormat, PackDescription)));
    r := Ok(java);
  }

  /** The loop of `bedrockToJava` over the packs, bottom to top, into a
      content that starts empty. */
  method ConvertPacks<Img>(packs: seq<map<string, seq<Byte>>>, orders: seq<seq<string>>, java: Content, codecs: Codecs<Img>) returns (error: Option<RewriteError>)
    requires |orders| == |packs|
    requires forall p :: 0 <= p < |packs| ==> Listed(packs[p], orders[p])
    requires java.files == map[]
    modifies java
    ensures error.Some? ==> Packs(packs, orders, codecs, |packs|) == Err(error.value)
    ensures error.None? ==> Packs(packs, orders, codecs, |packs|) == Ok(java.files)
  {
    error := None;
    var p := 0;
    while p < |packs| && error.None?
      invariant p <= |packs|
      invariant error.None? ==> Packs(packs, orders, codecs, p) == Ok(java.files)
      invariant error.Some? ==> Packs(packs, orders, codecs, p) == Err(error.value)
    {
      PacksSnoc(packs, orders, codecs, p, java.files);
      error := ConvertPack(packs[p], orders[p], java, codecs);
      p := p + 1;
    }
    if error.Some? {
      PacksFailedStays(packs, orders, codecs, p, |packs|);
    }
  }

  lemma {:induction false} PacksFailedStays<Img>(packs: seq<map<string, seq<Byte>>>, orders: seq<seq<string>>, codecs: Codecs<Img>, m: nat, n: nat)
    requires |orders| == |packs| && m <= n <= |packs|
    requires forall p :: 0 <= p < |packs| ==> Listed(packs[p], orders[p])
    requires Packs(packs, orders, codecs, m).Err?
    ensures Packs(packs, orders, codecs, n) == Packs(packs, orders, codecs, m)
  {
    if n > m {
      PacksFailedStays(packs, orders, codecs, m, n - 1);
    }
  }
}
