/**
 The convert command as one decision: from the source archive's entries,
 the image, the column and the optional new name, either the reason it
 stops or the plan of the archive it writes — which file, whether it then
 replaces the original, and which entries in which order.
 */
module Repack {
  import opened Outcomes
  import opened Bytes
  import opened Json
  import opened Raster
  import opened BodyPatch

  /** The entry the command patches. */
  const BodyName: string := "body.json"

  /** The file written first when the original is to be replaced. */
  const TempName: string := "TEMPUBOX.ubox"

  /** One archive entry as the zip reader lists it: its name and its stored
      (still compressed) bytes, which a raw copy carries over untouched. */
  datatype Entry = Entry(name: string, raw: seq<byte>)

  /** Entry names, in archive order. */
  function Names(entries: seq<Entry>): (ns: seq<string>)
    ensures |ns| == |entries|
    ensures forall i :: 0 <= i < |entries| ==> ns[i] == entries[i].name
  {
    seq(|entries|, i requires 0 <= i < |entries| => entries[i].name)
  }

  /** No two entries share a name. The zip reader indexes its entries by
      name, so the listing it yields names each file once. */
  predicate UniqueNames(entries: seq<Entry>)
  {
    forall i, j :: 0 <= i < j < |entries| ==> entries[i].name != entries[j].name
  }

  /** `by_name`: the entry with that name, if the archive has one. */
  function ByName(entries: seq<Entry>, name: string): (r: Option<Entry>)
    ensures r.Some? <==> name in Names(entries)
    ensures r.Some? ==> r.value in entries && r.value.name == name
  {
    if |entries| == 0 then None
    else if entries[0].name == name then Some(entries[0])
    else
      var r := ByName(entries[1..], name);
      assert Names(entries[1..]) == Names(entries)[1..];
      r
  }

  /** The entries raw-copied into the new archive: every source entry except
      `body.json`, in source order. */
  function Kept(entries: seq<Entry>): (kept: seq<Entry>)
    ensures |kept| <= |entries|
    ensures forall i :: 0 <= i < |kept| ==> kept[i].name != BodyName
  {
    if |entries| == 0 then []
    else (if entries[0].name == BodyName then [] else [entries[0]]) + Kept(entries[1..])
  }

  /** The new archive's entries: the copies, then the freshly written body.
      They carry the source's names plus `body.json`, which comes last and
      only once. */
  function OutputEntries(src: seq<Entry>, body: seq<byte>): (out: seq<Entry>)
    ensures |out| > 0 && out[|out| - 1] == Entry(BodyName, body)
    ensures forall n :: n in Names(out) <==> n in Names(src) || n == BodyName
    ensures multiset(Names(out))[BodyName] == 1
  {
    var out := Kept(src) + [Entry(BodyName, body)];
    KeptNames(src);
    KeptNamesNoBody(src);
    assert Names(out) == Names(Kept(src)) + [BodyName];
    out
  }

  /** In a listing that names each file once, `by_name` on a listed name
      returns exactly that listed entry, so the copy loop copies each
      listed entry itself. */
  lemma ByNameFindsListed(entries: seq<Entry>, i: nat)
    requires UniqueNames(entries) && i < |entries|
    ensures ByName(entries, entries[i].name) == Some(entries[i])
  {
  }

  /** Copying keeps source order: the copies of two consecutive stretches of
      the archive come out one after the other. */
  lemma {:induction false} KeptConcat(a: seq<Entry>, b: seq<Entry>)
    ensures Kept(a + b) == Kept(a) + Kept(b)
  {
    if |a| == 0 {
      assert a + b == b;
    } else {
      assert (a + b)[0] == a[0];
      assert (a + b)[1..] == a[1..] + b;
      KeptConcat(a[1..], b);
    }
  }

  /** Copying keeps every entry other than `body.json` exactly — name and
      stored bytes — as often as the source has it, and drops `body.json`. */
  lemma {:induction false} KeptCounts(entries: seq<Entry>)
    ensures forall e :: multiset(Kept(entries))[e] == (if e.name == BodyName then 0 else multiset(entries)[e])
  {
    if |entries| != 0 {
      KeptCounts(entries[1..]);
      assert entries == [entries[0]] + entries[1..];
    }
  }

  /** The new archive has exactly the source's entry names (the source is
      required to hold a `body.json`), each once, so it has as many entries
      as the source. */
  lemma OutputNames(src: seq<Entry>, body: seq<byte>)
    requires BodyName in Names(src) && UniqueNames(src)
    ensures forall n :: n in Names(OutputEntries(src, body)) <==> n in Names(src)
    ensures UniqueNames(OutputEntries(src, body))
    ensures |OutputEntries(src, body)| == |src|
  {
    var out := OutputEntries(src, body);
    KeptUnique(src);
    KeptNames(src);
    KeptLength(src);
    NameCountUnique(src, BodyName);
    forall i, j | 0 <= i < j < |out| ensures out[i].name != out[j].name {
      if j == |out| - 1 {
        assert out[i] in Kept(src);
      } else {
        assert out[i] == Kept(src)[i] && out[j] == Kept(src)[j];
      }
    }
  }

  /** Copying a listing that names each file once yields such a listing. */
  lemma {:induction false} KeptUnique(entries: seq<Entry>)
    requires UniqueNames(entries)
    ensures UniqueNames(Kept(entries))
  {
    if |entries| != 0 {
      var tail := entries[1..];
      UniqueTail(entries);
      KeptUnique(tail);
      KeptNames(tail);
      var head := if entries[0].name == BodyName then [] else [entries[0]];
      var rest := Kept(tail);
      var kept := Kept(entries);
      assert kept == head + rest;
      forall i, j | 0 <= i < j < |kept| ensures kept[i].name != kept[j].name {
        var d := |head|;
        assert kept[j] == rest[j - d];
        if i < d {
          assert Names(rest)[j - d] == kept[j].name;
        } else {
          assert kept[i] == rest[i - d];
        }
      }
    }
  }

  /** Dropping the first entry of a listing that names each file once leaves
      such a listing, none of whose names is the dropped one. */
  lemma UniqueTail(entries: seq<Entry>)
    requires |entries| > 0 && UniqueNames(entries)
    ensures UniqueNames(entries[1..]) && entries[0].name !in Names(entries[1..])
  {
    var tail := entries[1..];
    forall i, j | 0 <= i < j < |tail| ensures tail[i].name != tail[j].name {
      assert tail[i] == entries[i + 1] && tail[j] == entries[j + 1];
    }
    forall j | 0 <= j < |tail| ensures tail[j].name != entries[0].name {
      assert tail[j] == entries[j + 1];
    }
  }

  /** Copying drops one entry per `body.json` in the listing. */
  lemma {:induction false} KeptLength(entries: seq<Entry>)
    ensures |Kept(entries)| + multiset(Names(entries))[BodyName] == |entries|
  {
    if |entries| != 0 {
      KeptLength(entries[1..]);
      assert Names(entries) == [entries[0].name] + Names(entries[1..]);
    }
  }

  /** A listing that names each file once holds any name at most once. */
  lemma {:induction false} NameCountUnique(entries: seq<Entry>, n: string)
    requires UniqueNames(entries)
    ensures multiset(Names(entries))[n] == (if n in Names(entries) then 1 else 0)
  {
    if |entries| != 0 {
      var tail := entries[1..];
      UniqueTail(entries);
      NameCountUnique(tail, n);
      assert Names(entries) == [entries[0].name] + Names(tail);
    }
  }

  /** The copies carry exactly the source's names other than `body.json`. */
  lemma {:induction false} KeptNames(entries: seq<Entry>)
    ensures forall n :: n in Names(Kept(entries)) <==> n in Names(entries) && n != BodyName
  {
    if |entries| != 0 {
      KeptNames(entries[1..]);
      var head := if entries[0].name == BodyName then [] else [entries[0]];
      assert Kept(entries) == head + Kept(entries[1..]);
      assert Names(Kept(entries)) == Names(head) + Names(Kept(entries[1..]));
      assert Names(entries) == [entries[0].name] + Names(entries[1..]);
    }
  }

  /** No copy is called `body.json`. */
  lemma {:induction false} KeptNamesNoBody(entries: seq<Entry>)
    ensures multiset(Names(Kept(entries)))[BodyName] == 0
  {
    if |entries| != 0 {
      KeptNamesNoBody(entries[1..]);
      var head := if entries[0].name == BodyName then [] else [entries[0]];
      assert Kept(entries) == head + Kept(entries[1..]);
      assert Names(Kept(entries)) == Names(head) + Names(Kept(entries[1..]));
    }
  }

  /** What the command writes: the file `path`, which afterwards replaces
      the original when `overwrite` is set, holding `entries`. */
  datatype Plan = Plan(path: string, overwrite: bool, entries: seq<Entry>)

  /** Why the command stops before creating any file. */
  datatype ConvertError =
    | BodyMissing          // the archive has no `body.json`
    | BodyNotJson          // `body.json` does not parse as JSON
    | Patch(why: PatchError)

  /** src/main.rs:55-130, the convert command. `read` stands for decompressing
      and parsing a stored entry, `write` for serialising a document and
      compressing it into a stored entry, `tok` for the `RGBA(...)` text of
      a pixel. A missing `body.json`, one that does not parse, and a failed
      patch each stop the run with their own error, before the plan exists,
      so a failing run creates no file. Otherwise the plan lists the raw
      copies and then one `body.json`, the document with the image's column
      in place; it replaces the original exactly when no new name is given,
      and is then written to the temporary name. */
  function Convert(src: seq<Entry>, newName: Option<string>, img: Image, pos: nat,
                   tok: Rgba -> string, read: seq<byte> -> Option<Json>,
                   write: Json -> seq<byte>): (r: Result<Plan, ConvertError>)
    requires UniqueNames(src)
    ensures ByName(src, BodyName).None? ==> r == Err(BodyMissing)
    ensures ByName(src, BodyName).Some? && read(ByName(src, BodyName).value.raw).None? ==>
      r == Err(BodyNotJson)
    ensures ByName(src, BodyName).Some? && read(ByName(src, BodyName).value.raw).Some? ==>
      var patched := PatchBody(read(ByName(src, BodyName).value.raw).value, Bands(img, pos, tok));
      patched.Err? ==> r == Err(Patch(patched.error))
    ensures r.Ok? <==>
      ByName(src, BodyName).Some? && read(ByName(src, BodyName).value.raw).Some? &&
      AppearanceColors(read(ByName(src, BodyName).value.raw).value).Some?
    ensures r.Ok? ==>
      var patched := PatchBody(read(ByName(src, BodyName).value.raw).value, Bands(img, pos, tok));
      patched.Ok? && AppearanceColors(patched.value) == Some(Bands(img, pos, tok)) &&
      r.value.entries == Kept(src) + [Entry(BodyName, write(patched.value))]
    ensures r.Ok? ==> (r.value.overwrite <==> newName.None?)
    ensures r.Ok? ==> r.value.path == (if newName.Some? then newName.value else TempName)
  {
    match ByName(src, BodyName)
    case None => Err(BodyMissing)
    case Some(body) =>
      match read(body.raw)
      case None => Err(BodyNotJson)
      case Some(doc) =>
        match PatchBody(doc, Bands(img, pos, tok))
        case Err(e) => Err(Patch(e))
        case Ok(doc') =>
          Ok(Plan(if newName.Some? then newName.value else TempName,
                  newName.None?,
                  OutputEntries(src, write(doc'))))
  }

  /** A `body.json` without any "AppearanceComponent" stops the run with a
      patch error, so no output file is created. */
  lemma NoAppearanceNoOutput(src: seq<Entry>, newName: Option<string>, img: Image, pos: nat,
                             tok: Rgba -> string, read: seq<byte> -> Option<Json>,
                             write: Json -> seq<byte>)
    requires UniqueNames(src)
    requires ByName(src, BodyName).Some? && read(ByName(src, BodyName).value.raw).Some?
    requires var doc := read(ByName(src, BodyName).value.raw).value;
      Components(doc).Some? &&
      forall i :: 0 <= i < |Components(doc).value| ==> !IsAppearance(Components(doc).value[i])
    ensures Convert(src, newName, img, pos, tok, read, write).Err?
    ensures Convert(src, newName, img, pos, tok, read, write).error.Patch?
  {
    var doc := read(ByName(src, BodyName).value.raw).value;
    NoAppearanceFails(Components(doc).value, Bands(img, pos, tok));
  }
}
