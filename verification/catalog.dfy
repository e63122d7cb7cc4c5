/** The catalog load of `database/database.js`, with every SQL `INSERT` replaced by a row
    appended to a returned table: the credits map (`txtToMap`), the merge with the sprite
    manifest (`allSprites`), the `images` and `image_artists` rows (`insertImages`) and the
    `dex_entry` rows (`insertDexEntries`). */
module Catalog {
  import opened JsValues
  import opened Text
  import opened SpriteIds
  import opened OrderedMaps

  /** The line separator both text files are split on. */
  const LineBreak := "\r\n"

  /** The separator of several artists in one credit field. */
  const ArtistSeparator := " & "

  /** The artist name stored for an empty credit. */
  const Placeholder := "Coming Soon (WIP)"

  /** One credits line as `txtToMap` stores it: `[sprite_id, artists, imageType, comments]`.
      A field the line does not have is `undefined` (None). */
  datatype CreditRow = CreditRow(spriteId: string, artists: Option<string>, imageType: ImageType, comments: Option<string>)

  /** A row of the `images` table. `comments` None is SQL NULL. */
  datatype ImageRow = ImageRow(spriteId: string, baseId: string, imageType: ImageType, comments: Option<string>)

  /** A row of the `image_artists` table. */
  datatype ArtistRow = ArtistRow(spriteId: string, artistName: string)

  /** What `insertImages` writes: the two tables, in insertion order. */
  datatype Tables = Tables(images: seq<ImageRow>, artists: seq<ArtistRow>)

  /** A parsed row of the dex CSV file. */
  datatype DexRecord = DexRecord(sprite: string, entry: string, author: string)

  /** A row of the `dex_entry` table; `id` is the AUTOINCREMENT key of a fresh table. */
  datatype DexRow = DexRow(id: nat, spriteId: string, entry: string, author: string)

  // ---------------------------------------------------------------- txtToMap

  /** The sprite ids of a list of credit rows. */
  function IdsOf(data: seq<CreditRow>): set<string> {
    set i | 0 <= i < |data| :: data[i].spriteId
  }

  function Field(fields: seq<string>, i: nat): Option<string> {
    if i < |fields| then Some(fields[i]) else None
  }

  /** Field `n` of a comma-separated line, read off the line itself: the text after the
      `n`-th ',' up to the next one, or None when the line has fewer than `n` commas. */
  function CommaField(line: string, n: nat): Option<string> {
    match AfterSeps(line, ",", n)
    case None => None
    case Some(rest) => Some(BeforeSep(rest, ","))
  }

  /** Indexing the result of `split(",")` reads the same field as `CommaField`. */
  lemma SplitField(line: string, n: nat)
    ensures Field(Split(line, ","), n) == CommaField(line, n)
  {
    SplitPieces(line, ",", n);
  }

  /** The entry `txtToMap` builds from one line: the comma-separated fields, with the
      third column thrown away and replaced by the type computed from the id. The id is
      the text before the first ','; a line without a ',' is all id, with artists and
      comments undefined. The artists are the text between the first and the second ',',
      the comments the text after the third, up to any fourth. */
  function CreditRowOf(line: string): (c: CreditRow)
    ensures c.imageType == ImageTypeOf(c.spriteId)
    ensures ',' !in c.spriteId
    ensures IndexOf(line, ",").None? ==> c.spriteId == line && c.artists.None? && c.comments.None?
    ensures IndexOf(line, ",").Some? ==> c.spriteId == line[..IndexOf(line, ",").value] && c.artists.Some?
    ensures c.artists == Field(Split(line, ","), 1) == CommaField(line, 1)
    ensures c.comments == Field(Split(line, ","), 3) == CommaField(line, 3)
  {
    var fields := Split(line, ",");
    IndexOfChar(fields[0], ',');
    SplitField(line, 1);
    SplitField(line, 3);
    CreditRow(fields[0], Field(fields, 1), ImageTypeOf(fields[0]), Field(fields, 3))
  }

  /** The lines `txtToMap` keeps, in order: those that are not all white space. */
  function NonBlank(lines: seq<string>): (kept: seq<string>)
    ensures forall i :: 0 <= i < |kept| ==> !IsBlank(kept[i])
    ensures forall l :: l in kept <==> l in lines && !IsBlank(l)
    decreases |lines|
  {
    if |lines| == 0 then []
    else
      var last := lines[|lines| - 1];
      assert lines == lines[..|lines| - 1] + [last];
      var kept := NonBlank(lines[..|lines| - 1]);
      if Trim(last) == "" then kept else kept + [last]
  }

  /** `NonBlank` is a filter: on one line it keeps the line exactly when the line is not
      all white space... */
  lemma NonBlankOne(l: string)
    ensures NonBlank([l]) == if IsBlank(l) then [] else [l]
  {
    assert [l][..0] == [];
  }

  /** ... and it keeps the lines of a concatenation piece by piece, in order. */
  lemma {:induction false} NonBlankAppend(a: seq<string>, b: seq<string>)
    ensures NonBlank(a + b) == NonBlank(a) + NonBlank(b)
    decreases |b|
  {
    if |b| == 0 {
      assert a + b == a;
    } else {
      var front := b[..|b| - 1];
      var last := b[|b| - 1];
      assert b == front + [last];
      assert a + b == (a + front) + [last];
      NonBlankAppend(a, front);
      NonBlankSnoc(a + front, last);
      NonBlankSnoc(front, last);
      AppendStep(NonBlank(a + b), NonBlank(a + front), NonBlank(a), NonBlank(front), NonBlank(b),
                 if IsBlank(last) then [] else [last]);
    }
  }

  /** If `x` is `y` then `k`, and `y` is `p` then `w`, then `x` is `p` then `w` then `k`. */
  lemma AppendStep<T>(x: seq<T>, y: seq<T>, p: seq<T>, w: seq<T>, z: seq<T>, k: seq<T>)
    requires x == y + k && y == p + w && z == w + k
    ensures x == p + z
  {
  }

  /** One line more at the end adds that line to what is kept, unless it is blank. */
  lemma NonBlankSnoc(lines: seq<string>, l: string)
    ensures NonBlank(lines + [l]) == NonBlank(lines) + if IsBlank(l) then [] else [l]
  {
    assert (lines + [l])[..|lines|] == lines;
  }

  /** The credit rows of a credits file, one per non-blank line, in file order. */
  function CreditRows(data: string): (rows: seq<CreditRow>) {
    var lines := NonBlank(Split(data, LineBreak));
    seq(|lines|, i requires 0 <= i < |lines| => CreditRowOf(lines[i]))
  }

  /** `spriteMap.set(sprite_id, row)` for each row in order. */
  function SetAll(m: OrderedMap<string, CreditRow>, rows: seq<CreditRow>): OrderedMap<string, CreditRow>
    decreases |rows|
  {
    if |rows| == 0 then m
    else
      var last := rows[|rows| - 1];
      Put(SetAll(m, rows[..|rows| - 1]), last.spriteId, last)
  }

  /** `txtToMap(dataString)`. */
  function TxtToMap(data: string): OrderedMap<string, CreditRow> {
    SetAll([], CreditRows(data))
  }

  /** Every entry is stored under its own sprite id. */
  ghost predicate KeyedById(m: OrderedMap<string, CreditRow>) {
    forall i :: 0 <= i < |m| ==> m[i].1.spriteId == m[i].0
  }

  /** Every entry's type is the one computed from its sprite id. */
  ghost predicate WellTyped(m: OrderedMap<string, CreditRow>) {
    forall i :: 0 <= i < |m| ==> m[i].1.imageType == ImageTypeOf(m[i].1.spriteId)
  }

  lemma PutWellTyped(m: OrderedMap<string, CreditRow>, k: string, c: CreditRow)
    requires WellTyped(m) && c.imageType == ImageTypeOf(c.spriteId)
    ensures WellTyped(Put(m, k, c))
  {
  }

  /** Row `i` is the last row with its sprite id. */
  ghost predicate LastWithId(rows: seq<CreditRow>, i: nat)
    requires i < |rows|
  {
    forall j :: i < j < |rows| ==> rows[j].spriteId != rows[i].spriteId
  }

  /** Setting rows one by one keeps one entry per distinct id, and the ids present are
      exactly those of the rows. */
  lemma {:induction false} SetAllKeys(rows: seq<CreditRow>)
    ensures DistinctKeys(SetAll([], rows))
    ensures forall k :: k in KeysOf(SetAll([], rows)) <==> k in IdsOf(rows)
    decreases |rows|
  {
    if |rows| > 0 {
      var prefix := rows[..|rows| - 1];
      var last := rows[|rows| - 1];
      SetAllKeys(prefix);
      IdsOfSnoc(rows);
      var m := SetAll([], prefix);
      assert SetAll([], rows) == Put(m, last.spriteId, last);
      assert last.spriteId in KeysOf(Put(m, last.spriteId, last)) by {
        assert Get(Put(m, last.spriteId, last), last.spriteId).Some?;
      }
    }
  }

  /** The ids of a non-empty list: those of all rows but the last, and the last one's. */
  lemma IdsOfSnoc(rows: seq<CreditRow>)
    requires |rows| > 0
    ensures IdsOf(rows) == IdsOf(rows[..|rows| - 1]) + {rows[|rows| - 1].spriteId}
  {
    var prefix := rows[..|rows| - 1];
    assert forall i :: 0 <= i < |prefix| ==> rows[i] == prefix[i];
  }

  /** Every entry is stored under its own sprite id. */
  lemma {:induction false} SetAllKeyedById(rows: seq<CreditRow>)
    ensures KeyedById(SetAll([], rows))
    decreases |rows|
  {
    if |rows| > 0 {
      var prefix := rows[..|rows| - 1];
      var last := rows[|rows| - 1];
      SetAllKeyedById(prefix);
      SetAllKeys(prefix);
      var m := SetAll([], prefix);
      var r := Put(m, last.spriteId, last);
      forall i | 0 <= i < |r| ensures r[i].1.spriteId == r[i].0 {
        GetEntry(r, i);
        if r[i].0 != last.spriteId {
          var j := FindKey(m, r[i].0).value;
          GetEntry(m, j);
        }
      }
    }
  }

  /** Every entry's type is computed from its id. */
  lemma {:induction false} SetAllWellTyped(rows: seq<CreditRow>)
    requires forall i :: 0 <= i < |rows| ==> rows[i].imageType == ImageTypeOf(rows[i].spriteId)
    ensures WellTyped(SetAll([], rows))
    decreases |rows|
  {
    if |rows| > 0 {
      SetAllWellTyped(rows[..|rows| - 1]);
      PutWellTyped(SetAll([], rows[..|rows| - 1]), rows[|rows| - 1].spriteId, rows[|rows| - 1]);
    }
  }

  /** The entry for an id holds the LAST row with that id. */
  lemma {:induction false} SetAllLastWins(rows: seq<CreditRow>)
    ensures forall i :: 0 <= i < |rows| && LastWithId(rows, i) ==> Get(SetAll([], rows), rows[i].spriteId) == Some(rows[i])
    decreases |rows|
  {
    if |rows| > 0 {
      var prefix := rows[..|rows| - 1];
      SetAllLastWins(prefix);
      forall i | 0 <= i < |rows| - 1 && LastWithId(rows, i)
        ensures Get(SetAll([], rows), rows[i].spriteId) == Some(rows[i])
      {
        assert rows[i] == prefix[i];
        assert LastWithId(prefix, i);
      }
    }
  }

  /** `txtToMap`: one entry per distinct first field, holding the last line with that
      field; its type is computed from the id, whatever the line's third column says. */
  lemma TxtToMapLastLineWins(data: string)
    ensures DistinctKeys(TxtToMap(data)) && KeyedById(TxtToMap(data))
    ensures forall k :: k in KeysOf(TxtToMap(data)) <==> k in IdsOf(CreditRows(data))
    ensures forall i :: 0 <= i < |CreditRows(data)| && LastWithId(CreditRows(data), i) ==>
              Get(TxtToMap(data), CreditRows(data)[i].spriteId) == Some(CreditRows(data)[i])
    ensures WellTyped(TxtToMap(data))
  {
    var rows := CreditRows(data);
    SetAllKeys(rows);
    SetAllKeyedById(rows);
    SetAllLastWins(rows);
    SetAllWellTyped(rows);
  }

  // ---------------------------------------------------------------- allSprites

  /** The sprite manifest: every line with its first ".png" removed. Blank lines are kept,
      a line without ".png" is kept as it is, and a second ".png" stays. */
  function ManifestIds(spritesData: string): (ids: seq<string>)
    ensures |ids| == |Split(spritesData, LineBreak)|
    ensures forall i :: 0 <= i < |ids| ==>
              var line := Split(spritesData, LineBreak)[i];
              && (IndexOf(line, ".png").None? ==> ids[i] == line)
              && (IndexOf(line, ".png").Some? ==>
                    var p := IndexOf(line, ".png").value;
                    ids[i] == line[..p] + line[p + 4..])
  {
    var lines := Split(spritesData, LineBreak);
    seq(|lines|, i requires 0 <= i < |lines| => ReplaceFirst(lines[i], ".png", ""))
  }

  /** The entry `allSprites` synthesizes for a manifest id the credits do not list. */
  function Synthesized(id: string): (c: CreditRow)
    ensures c.spriteId == id && c.imageType == ImageTypeOf(id)
    ensures c.artists == Some("") && c.comments == Some("")
  {
    CreditRow(id, Some(""), ImageTypeOf(id), Some(""))
  }

  /** `if (!spriteCredits.has(sprite)) spriteCredits.set(sprite, ...)` for each id in order. */
  function AddMissing(m: OrderedMap<string, CreditRow>, ids: seq<string>): OrderedMap<string, CreditRow>
    decreases |ids|
  {
    if |ids| == 0 then m
    else
      var prev := AddMissing(m, ids[..|ids| - 1]);
      var id := ids[|ids| - 1];
      if Get(prev, id).Some? then prev else Put(prev, id, Synthesized(id))
  }

  /** Merging the manifest never overwrites an entry the credits have. */
  lemma {:induction false} AddMissingKeepsCredits(m: OrderedMap<string, CreditRow>, ids: seq<string>)
    ensures forall k :: Get(m, k).Some? ==> Get(AddMissing(m, ids), k) == Get(m, k)
    decreases |ids|
  {
    if |ids| > 0 {
      AddMissingKeepsCredits(m, ids[..|ids| - 1]);
    }
  }

  /** The keys after the merge are the credits' keys, in their order, followed by the
      new manifest ids. */
  lemma {:induction false} AddMissingKeys(m: OrderedMap<string, CreditRow>, ids: seq<string>)
    ensures forall k :: k in KeysOf(AddMissing(m, ids)) <==> k in KeysOf(m) || k in ids
    ensures KeysOf(m) <= KeysOf(AddMissing(m, ids))
    decreases |ids|
  {
    if |ids| > 0 {
      var prefix := ids[..|ids| - 1];
      var id := ids[|ids| - 1];
      AddMissingKeys(m, prefix);
      var prev := AddMissing(m, prefix);
      assert forall k :: k in ids <==> k in prefix || k == id by {
        assert ids == prefix + [id];
      }
      AddOneKeys(prev, id);
      var r := AddMissing(m, ids);
      assert r == if Get(prev, id).Some? then prev else Put(prev, id, Synthesized(id));
      PrefixTransitive(KeysOf(m), KeysOf(prev), KeysOf(r));
    }
  }

  lemma PrefixTransitive(a: seq<string>, b: seq<string>, c: seq<string>)
    requires a <= b && b <= c
    ensures a <= c
  {
    assert c[..|b|][..|a|] == c[..|a|];
  }

  /** One step of the merge adds `id` to the keys, at the end, if it is missing. */
  lemma AddOneKeys(prev: OrderedMap<string, CreditRow>, id: string)
    ensures var r := if Get(prev, id).Some? then prev else Put(prev, id, Synthesized(id));
            && (forall k :: k in KeysOf(r) <==> k in KeysOf(prev) || k == id)
            && KeysOf(prev) <= KeysOf(r)
  {
    if Get(prev, id).None? {
      assert KeysOf(Put(prev, id, Synthesized(id))) == KeysOf(prev) + [id];
    }
  }

  /** The merge keeps keys distinct, every entry under its own id and typed by it. */
  lemma {:induction false} AddMissingWellFormed(m: OrderedMap<string, CreditRow>, ids: seq<string>)
    requires DistinctKeys(m) && KeyedById(m) && WellTyped(m)
    ensures DistinctKeys(AddMissing(m, ids)) && KeyedById(AddMissing(m, ids)) && WellTyped(AddMissing(m, ids))
    decreases |ids|
  {
    if |ids| > 0 {
      var prefix := ids[..|ids| - 1];
      var id := ids[|ids| - 1];
      AddMissingWellFormed(m, prefix);
      var prev := AddMissing(m, prefix);
      if Get(prev, id).None? {
        var r := Put(prev, id, Synthesized(id));
        PutWellTyped(prev, id, Synthesized(id));
        forall i | 0 <= i < |r| ensures r[i].1.spriteId == r[i].0 {
          if i < |prev| {
            assert KeysOf(r)[i] == KeysOf(prev)[i];
          }
        }
      }
    }
  }

  /** Every manifest id the credits lack gets the synthesized entry, with "" artists and
      "" comments. */
  lemma {:induction false} AddMissingSynthesizes(m: OrderedMap<string, CreditRow>, ids: seq<string>)
    ensures forall i :: 0 <= i < |ids| && Get(m, ids[i]).None? ==> Get(AddMissing(m, ids), ids[i]) == Some(Synthesized(ids[i]))
    decreases |ids|
  {
    if |ids| > 0 {
      var prefix := ids[..|ids| - 1];
      var id := ids[|ids| - 1];
      AddMissingSynthesizes(m, prefix);
      AddMissingKeys(m, prefix);
      var prev := AddMissing(m, prefix);
      forall i | 0 <= i < |ids| && Get(m, ids[i]).None?
        ensures Get(AddMissing(m, ids), ids[i]) == Some(Synthesized(ids[i]))
      {
        if i < |prefix| {
          assert ids[i] == prefix[i];
          assert Get(prev, ids[i]) == Some(Synthesized(ids[i]));
          if Get(prev, id).None? {
            assert id != ids[i];
            assert AddMissing(m, ids) == Put(prev, id, Synthesized(id));
          } else {
            assert AddMissing(m, ids) == prev;
          }
        } else {
          assert ids[i] == id;
          if Get(prev, id).Some? {
            var j :| 0 <= j < |prefix| && prefix[j] == id;
          }
          assert AddMissing(m, ids) == Put(prev, id, Synthesized(id));
        }
      }
    }
  }

  /** `allSprites()`: the credits map completed with the manifest, as a list of rows. */
  function AllSprites(creditsData: string, spritesData: string): seq<CreditRow> {
    ValuesOf(AddMissing(TxtToMap(creditsData), ManifestIds(spritesData)))
  }

  /** The rows `allSprites` returns have pairwise distinct sprite ids, and each row's type
      is the one computed from its id. */
  lemma AllSpritesDistinct(creditsData: string, spritesData: string)
    ensures DistinctIds(AllSprites(creditsData, spritesData))
    ensures var data := AllSprites(creditsData, spritesData);
            forall i :: 0 <= i < |data| ==> data[i].imageType == ImageTypeOf(data[i].spriteId)
  {
    var m0 := TxtToMap(creditsData);
    var ids := ManifestIds(spritesData);
    TxtToMapLastLineWins(creditsData);
    AddMissingWellFormed(m0, ids);
  }

  /** An empty manifest is one blank line, and it becomes a sprite with the empty id. */
  lemma EmptyManifestLineKept(creditsData: string)
    ensures "" in KeysOf(AddMissing(TxtToMap(creditsData), ManifestIds("")))
  {
    assert ManifestIds("") == [""];
    AddMissingKeys(TxtToMap(creditsData), [""]);
  }

  // ---------------------------------------------------------------- insertImages

  /** The image row written for a credit row: its base id is `getBaseId(sprite_id)`. */
  function ImageRowOf(c: CreditRow): (r: ImageRow)
    ensures r.spriteId == c.spriteId && r.baseId == GetBaseId(c.spriteId)
    ensures r.imageType == c.imageType && r.comments == c.comments
  {
    ImageRow(c.spriteId, GetBaseId(c.spriteId), c.imageType, c.comments)
  }

  /** What the base id of an image row means: the sprite id without its trailing letters,
      so that the base id followed by those letters gives the sprite id back and the base
      id ends in no letter; a main sprite is its own base. */
  lemma ImageRowBase(c: CreditRow)
    ensures var r := ImageRowOf(c);
            && r.spriteId == r.baseId + AltSuffix(r.spriteId) && AllLetters(AltSuffix(r.spriteId))
            && (|r.baseId| > 0 ==> !IsAsciiLetter(r.baseId[|r.baseId| - 1]))
            && (c.imageType == ImageTypeOf(c.spriteId) && c.imageType == Main ==> r.baseId == r.spriteId)
  {
    if ImageTypeOf(c.spriteId) == Main {
      MainIdIsOwnBase(c.spriteId);
    }
  }

  /** `artist.trim() || "Coming Soon (WIP)"`: never empty. */
  function ArtistName(piece: string): (name: string)
    ensures name != ""
    ensures IsBlank(piece) ==> name == Placeholder
    ensures !IsBlank(piece) ==> name == Trim(piece)
  {
    var t := Trim(piece);
    if t == "" then Placeholder else t
  }

  /** `artists?.split(" & ")?.forEach(...)`: one row per piece, in order. */
  function ArtistRowsOf(spriteId: string, artists: Option<string>): (rows: seq<ArtistRow>) {
    match artists
    case None => []
    case Some(a) =>
      var pieces := Split(a, ArtistSeparator);
      seq(|pieces|, i requires 0 <= i < |pieces| => ArtistRow(spriteId, ArtistName(pieces[i])))
  }

  /** Artist rows of one sprite: none for an undefined field; otherwise one per
      " & "-separated piece, in order, each the trimmed piece or the placeholder, and the
      pieces joined back with " & " give the field again. */
  lemma ArtistRowsSpec(spriteId: string, artists: Option<string>)
    ensures artists.None? ==> ArtistRowsOf(spriteId, artists) == []
    ensures artists.Some? ==>
              var pieces := Split(artists.value, ArtistSeparator);
              && Join(pieces, ArtistSeparator) == artists.value
              && |ArtistRowsOf(spriteId, artists)| == |pieces| >= 1
              && forall i :: 0 <= i < |pieces| ==>
                   && IndexOf(pieces[i], ArtistSeparator).None?
                   && ArtistRowsOf(spriteId, artists)[i].spriteId == spriteId
                   && ArtistRowsOf(spriteId, artists)[i].artistName == (if IsBlank(pieces[i]) then Placeholder else Trim(pieces[i]))
    ensures artists == Some("") ==> ArtistRowsOf(spriteId, artists) == [ArtistRow(spriteId, Placeholder)]
  {
    match artists
    case None =>
    case Some(a) =>
      ArtistRowsOfPieces(spriteId, a);
      if a == "" {
        ArtistRowsOfEmpty(spriteId);
      }
  }

  lemma ArtistRowsOfPieces(spriteId: string, a: string)
    ensures var pieces := Split(a, ArtistSeparator);
            && |ArtistRowsOf(spriteId, Some(a))| == |pieces|
            && forall i :: 0 <= i < |pieces| ==>
                 && ArtistRowsOf(spriteId, Some(a))[i].spriteId == spriteId
                 && ArtistRowsOf(spriteId, Some(a))[i].artistName == (if IsBlank(pieces[i]) then Placeholder else Trim(pieces[i]))
  {
  }

  lemma ArtistRowsOfEmpty(spriteId: string)
    ensures ArtistRowsOf(spriteId, Some("")) == [ArtistRow(spriteId, Placeholder)]
  {
    assert Split("", ArtistSeparator) == [""];
  }

  /** A sprite that only the manifest lists is credited to the placeholder artist and gets
      an empty comment. */
  lemma SynthesizedCredit(id: string)
    ensures ArtistRowsOf(id, Synthesized(id).artists) == [ArtistRow(id, Placeholder)]
    ensures ImageRowOf(Synthesized(id)).comments == Some("")
  {
    ArtistRowsSpec(id, Synthesized(id).artists);
  }

  /** What `insertImages(db, data)` writes, row by row: a row whose id was already
      processed is skipped with neither an image nor an artist row. */
  function LoadImages(data: seq<CreditRow>): Tables
    decreases |data|
  {
    if |data| == 0 then Tables([], [])
    else
      var prev := LoadImages(data[..|data| - 1]);
      var c := data[|data| - 1];
      if c.spriteId in IdsOf(data[..|data| - 1]) then prev
      else Tables(prev.images + [ImageRowOf(c)], prev.artists + ArtistRowsOf(c.spriteId, c.artists))
  }

  /** One more row adds its id to the ids seen. */
  lemma IdsOfAppend(data: seq<CreditRow>, c: CreditRow)
    ensures IdsOf(data + [c]) == IdsOf(data) + {c.spriteId}
  {
    var d := data + [c];
    assert d[|data|] == c;
    assert forall k :: 0 <= k < |data| ==> d[k] == data[k];
  }

  /** The `forEach` of `insertImages` with its `processedSpriteIds` set. */
  method InsertImages(data: seq<CreditRow>) returns (tables: Tables)
    ensures tables == LoadImages(data)
  {
    var processed: set<string> := {};
    var images: seq<ImageRow> := [];
    var artists: seq<ArtistRow> := [];
    var i := 0;
    while i < |data|
      invariant 0 <= i <= |data|
      invariant processed == IdsOf(data[..i])
      invariant Tables(images, artists) == LoadImages(data[..i])
    {
      var c := data[i];
      assert data[..i + 1] == data[..i] + [c];
      IdsOfAppend(data[..i], c);
      LoadImagesStep(data[..i], c);
      if c.spriteId !in processed {
        images := images + [ImageRowOf(c)];
        processed := processed + {c.spriteId};
        artists := artists + ArtistRowsOf(c.spriteId, c.artists);
      }
      i := i + 1;
    }
    assert data[..i] == data;
    tables := Tables(images, artists);
  }

  /** Row `k` is the first row with its sprite id. */
  ghost predicate FirstWithId(data: seq<CreditRow>, k: nat)
    requires k < |data|
  {
    forall j :: 0 <= j < k ==> data[j].spriteId != data[k].spriteId
  }

  ghost predicate DistinctImageIds(images: seq<ImageRow>) {
    forall i, j :: 0 <= i < j < |images| ==> images[i].spriteId != images[j].spriteId
  }

  function ImageIds(images: seq<ImageRow>): set<string> {
    set i | 0 <= i < |images| :: images[i].spriteId
  }

  lemma ImageIdsAppend(images: seq<ImageRow>, r: ImageRow)
    ensures ImageIds(images + [r]) == ImageIds(images) + {r.spriteId}
  {
    assert forall i :: 0 <= i < |images| ==> (images + [r])[i] == images[i];
    assert (images + [r])[|images|] == r;
  }

  /** One image row per distinct sprite id: the image ids are pairwise distinct and are
      exactly the ids of the input rows. */
  lemma {:induction false} LoadImagesOnePerId(data: seq<CreditRow>)
    ensures DistinctImageIds(LoadImages(data).images)
    ensures ImageIds(LoadImages(data).images) == IdsOf(data)
    decreases |data|
  {
    if |data| > 0 {
      var prefix := data[..|data| - 1];
      var c := data[|data| - 1];
      LoadImagesOnePerId(prefix);
      IdsOfSnoc(data);
      if c.spriteId !in IdsOf(prefix) {
        ImageIdsAppend(LoadImages(prefix).images, ImageRowOf(c));
      }
    }
  }

  /** Every row's base id is `getBaseId` of its sprite id. */
  ghost predicate BaseIdsDerived(images: seq<ImageRow>) {
    forall i :: 0 <= i < |images| ==> images[i].baseId == GetBaseId(images[i].spriteId)
  }

  /** The `base_id` column is always derived from `sprite_id`. */
  lemma {:induction false} LoadImagesBaseIds(data: seq<CreditRow>)
    ensures BaseIdsDerived(LoadImages(data).images)
    decreases |data|
  {
    if |data| > 0 {
      var prefix := data[..|data| - 1];
      var c := data[|data| - 1];
      LoadImagesBaseIds(prefix);
      var prev := LoadImages(prefix).images;
      if c.spriteId !in IdsOf(prefix) {
        var images := prev + [ImageRowOf(c)];
        assert LoadImages(data).images == images;
        forall i | 0 <= i < |images| ensures images[i].baseId == GetBaseId(images[i].spriteId) {
          if i < |prev| {
            assert images[i] == prev[i];
          }
        }
      }
    }
  }

  /** Every image row was written from the first input row with its id. */
  ghost predicate FromFirstRows(images: seq<ImageRow>, data: seq<CreditRow>) {
    forall i :: 0 <= i < |images| ==> WrittenFromFirst(images[i], data)
  }

  /** `r` is the image row of the first input row with its id. */
  ghost predicate WrittenFromFirst(r: ImageRow, data: seq<CreditRow>) {
    exists k :: 0 <= k < |data| && FirstWithId(data, k) && r == ImageRowOf(data[k])
  }

  /** A row written from the first row with its id stays so when rows are appended. */
  lemma WrittenFromFirstExtends(r: ImageRow, prefix: seq<CreditRow>, c: CreditRow)
    requires WrittenFromFirst(r, prefix)
    ensures WrittenFromFirst(r, prefix + [c])
  {
    var data := prefix + [c];
    var k :| 0 <= k < |prefix| && FirstWithId(prefix, k) && r == ImageRowOf(prefix[k]);
    assert data[k] == prefix[k];
    assert FirstWithId(data, k) by {
      forall j | 0 <= j < k ensures data[j].spriteId != data[k].spriteId {
        assert data[j] == prefix[j];
      }
    }
  }

  /** A row whose id has not been seen is the first row with its id. */
  lemma NewIdIsFirst(prefix: seq<CreditRow>, c: CreditRow)
    requires c.spriteId !in IdsOf(prefix)
    ensures FirstWithId(prefix + [c], |prefix|)
    ensures WrittenFromFirst(ImageRowOf(c), prefix + [c])
  {
    var data := prefix + [c];
    forall j | 0 <= j < |prefix| ensures data[j].spriteId != c.spriteId {
      assert data[j] == prefix[j];
    }
    assert data[|prefix|] == c;
  }

  /** Appending a row keeps every written row traced to a first row, and the row of a new
      id may be written after them. */
  lemma FromFirstRowsStep(images: seq<ImageRow>, prefix: seq<CreditRow>, c: CreditRow)
    requires FromFirstRows(images, prefix)
    ensures FromFirstRows(images, prefix + [c])
    ensures c.spriteId !in IdsOf(prefix) ==> FromFirstRows(images + [ImageRowOf(c)], prefix + [c])
  {
    forall i | 0 <= i < |images| ensures WrittenFromFirst(images[i], prefix + [c]) {
      WrittenFromFirstExtends(images[i], prefix, c);
    }
    if c.spriteId !in IdsOf(prefix) {
      NewIdIsFirst(prefix, c);
      var next := images + [ImageRowOf(c)];
      forall i | 0 <= i < |next| ensures WrittenFromFirst(next[i], prefix + [c]) {
        if i < |images| {
          assert next[i] == images[i];
        } else {
          assert next[i] == ImageRowOf(c);
        }
      }
    }
  }

  /** Each image row is written from the FIRST input row with its id. */
  lemma {:induction false} LoadImagesFirstWins(data: seq<CreditRow>)
    ensures FromFirstRows(LoadImages(data).images, data)
    decreases |data|
  {
    if |data| > 0 {
      var prefix := data[..|data| - 1];
      var c := data[|data| - 1];
      assert data == prefix + [c];
      LoadImagesFirstWins(prefix);
      LoadImagesStep(prefix, c);
      FromFirstRowsStep(LoadImages(prefix).images, prefix, c);
    }
  }

  /** The first row with each id is written. */
  lemma {:induction false} LoadImagesWritesFirst(data: seq<CreditRow>)
    ensures forall k :: 0 <= k < |data| && FirstWithId(data, k) ==> ImageRowOf(data[k]) in LoadImages(data).images
    decreases |data|
  {
    if |data| > 0 {
      var prefix := data[..|data| - 1];
      var c := data[|data| - 1];
      LoadImagesWritesFirst(prefix);
      forall k | 0 <= k < |data| && FirstWithId(data, k)
        ensures ImageRowOf(data[k]) in LoadImages(data).images
      {
        if k < |prefix| {
          assert data[k] == prefix[k];
          assert FirstWithId(prefix, k);
        } else {
          assert c.spriteId !in IdsOf(prefix);
        }
      }
    }
  }

  /** A later duplicate adds nothing at all, and a new id adds exactly its image row and
      its artist rows. */
  lemma LoadImagesStep(data: seq<CreditRow>, c: CreditRow)
    ensures c.spriteId in IdsOf(data) ==> LoadImages(data + [c]) == LoadImages(data)
    ensures c.spriteId !in IdsOf(data) ==>
              LoadImages(data + [c]) == Tables(LoadImages(data).images + [ImageRowOf(c)],
                                               LoadImages(data).artists + ArtistRowsOf(c.spriteId, c.artists))
  {
    assert (data + [c])[..|data|] == data;
  }

  /** No two rows share a sprite id. */
  predicate DistinctIds(data: seq<CreditRow>) {
    forall i, j :: 0 <= i < j < |data| ==> data[i].spriteId != data[j].spriteId
  }

  /** Without its last row, a list of distinct ids stays distinct and lacks the last id. */
  lemma DistinctIdsLast(prefix: seq<CreditRow>, c: CreditRow)
    requires DistinctIds(prefix + [c])
    ensures DistinctIds(prefix) && c.spriteId !in IdsOf(prefix)
  {
    var data := prefix + [c];
    forall i, j | 0 <= i < j < |prefix| ensures prefix[i].spriteId != prefix[j].spriteId {
      assert data[i] == prefix[i] && data[j] == prefix[j];
    }
    forall i | 0 <= i < |prefix| ensures prefix[i].spriteId != c.spriteId {
      assert data[i] == prefix[i] && data[|prefix|] == c;
    }
  }

  /** On rows with distinct ids (as `allSprites` returns), every row is written. */
  lemma {:induction false} LoadImagesDistinct(data: seq<CreditRow>)
    requires DistinctIds(data)
    ensures |LoadImages(data).images| == |data|
    ensures forall i :: 0 <= i < |data| ==> LoadImages(data).images[i] == ImageRowOf(data[i])
    decreases |data|
  {
    if |data| > 0 {
      var prefix := data[..|data| - 1];
      var c := data[|data| - 1];
      assert data == prefix + [c];
      DistinctIdsLast(prefix, c);
      LoadImagesDistinct(prefix);
      LoadImagesStep(prefix, c);
      var prev := LoadImages(prefix).images;
      var images := LoadImages(data).images;
      assert images == prev + [ImageRowOf(c)];
      forall i | 0 <= i < |data| ensures images[i] == ImageRowOf(data[i]) {
        if i < |prefix| {
          assert images[i] == prev[i] && data[i] == prefix[i];
        } else {
          assert images[i] == ImageRowOf(c) && data[i] == c;
        }
      }
    }
  }

  /** The whole image load of the script: `insertImages(db, allSprites())` writes one
      image row per row `allSprites` returns, in the same order. */
  lemma CatalogLoadWritesEverySprite(creditsData: string, spritesData: string)
    ensures var data := AllSprites(creditsData, spritesData);
            |LoadImages(data).images| == |data| &&
            forall i :: 0 <= i < |data| ==> LoadImages(data).images[i] == ImageRowOf(data[i])
  {
    AllSpritesDistinct(creditsData, spritesData);
    LoadImagesDistinct(AllSprites(creditsData, spritesData));
  }

  // ---------------------------------------------------------------- insertDexEntries

  /** `entry.replace("#", "_")`: only the first '#' becomes '_'; the length and every
      other character, later '#'s included, are kept. */
  function SanitizeEntry(entry: string): (r: string)
    ensures |r| == |entry|
    ensures forall k :: 0 <= k < |entry| ==>
              r[k] == (if entry[k] == '#' && '#' !in entry[..k] then '_' else entry[k])
  {
    IndexOfChar(entry, '#');
    var r := ReplaceFirst(entry, "#", "_");
    assert forall k :: 0 <= k < |entry| && '#' !in entry ==> entry[k] != '#';
    assert IndexOf(entry, "#").Some? ==>
             var p := IndexOf(entry, "#").value;
             forall k :: 0 <= k < |entry| && k != p ==> (entry[k] == '#' ==> '#' in entry[..k] || k < p) by {
      if IndexOf(entry, "#").Some? {
        var p := IndexOf(entry, "#").value;
        forall k | p < k < |entry| ensures '#' in entry[..k] {
          assert entry[..k][p] == '#';
        }
      }
    }
    r
  }

  /** `sprite.replace(".png", "")`: the first ".png" is removed. */
  function DexSpriteId(sprite: string): string {
    ReplaceFirst(sprite, ".png", "")
  }

  /** A file name made of an id without ".png" plus the suffix gives back the id. */
  lemma DexSpriteIdStripsSuffix(id: string)
    requires forall j: nat :: !OccursAt(id, ".png", j)
    ensures DexSpriteId(id + ".png") == id
  {
    var s := id + ".png";
    assert OccursAt(s, ".png", |id|) by {
      assert s[|id|..|id| + 4] == ".png";
    }
    forall j: nat | j < |id| ensures !OccursAt(s, ".png", j) {
      if j + 4 <= |id| {
        assert !OccursAt(id, ".png", j);
        assert s[j..j + 4] == id[j..j + 4];
      } else {
        assert s[j..j + 4][|id| - j] == '.';
        assert ".png"[|id| - j] != '.';
      }
    }
  }

  /** Only the first '#' of an entry is replaced: a second one survives. */
  lemma DexOnlyFirstHashReplaced()
    ensures SanitizeEntry("a#b#") == "a_b#"
  {
    var r := SanitizeEntry("a#b#");
    assert "a#b#"[..1] == "a" && "a#b#"[..3] == "a#b";
    assert r == [r[0], r[1], r[2], r[3]];
  }

  /** Only the first ".png" of a dex sprite is removed. */
  lemma DexOnlyFirstSuffixRemoved()
    ensures DexSpriteId("1.png.png") == "1.png"
  {
    assert OccursAt("1.png.png", ".png", 1) by {
      assert "1.png.png"[1..5] == ".png";
    }
    assert !OccursAt("1.png.png", ".png", 0) by {
      assert "1.png.png"[0] == '1';
    }
    assert IndexOf("1.png.png", ".png") == Some(1);
    assert "1.png.png"[..1] + "" + "1.png.png"[5..] == "1.png";
  }

  /** `insertDexEntries`: one row per record, in input order, numbered from 1, with the
      ".png" removed from the sprite and the first '#' of the entry replaced. */
  method InsertDexEntries(records: seq<DexRecord>) returns (rows: seq<DexRow>)
    ensures |rows| == |records|
    ensures forall i :: 0 <= i < |records| ==>
              rows[i] == DexRow(i + 1, DexSpriteId(records[i].sprite), SanitizeEntry(records[i].entry), records[i].author)
  {
    rows := [];
    var i := 0;
    while i < |records|
      invariant 0 <= i <= |records|
      invariant |rows| == i
      invariant forall k :: 0 <= k < i ==>
                  rows[k] == DexRow(k + 1, DexSpriteId(records[k].sprite), SanitizeEntry(records[k].entry), records[k].author)
    {
      var r := records[i];
      rows := rows + [DexRow(i + 1, DexSpriteId(r.sprite), SanitizeEntry(r.entry), r.author)];
      i := i + 1;
    }
  }
}
