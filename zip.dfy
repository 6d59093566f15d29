/**
 * The entry-copy loop of `salvageZipLike`: entries are read one by one from
 * a zip input stream and written to a zip output stream. An error while
 * copying one entry is swallowed and the loop goes on with the next entry;
 * an error from `nextEntry`, or from closing an entry of the input (which
 * sits in a `finally` block outside the swallowing `catch`), ends the loop.
 */
module Zip {
  import opened Common
  import opened Streams

  /**
   * One entry as `nextEntry` returns it: its name, the results of the
   * `read` calls on its data, and whether closing it on the input fails.
   */
  datatype InEntry = InEntry(name: string, data: seq<Read>, closeFails: bool)

  /**
   * An input archive: the entries `nextEntry` returns, then either the end
   * (`nextEntry` returns null) or, when `endFails`, an exception.
   */
  datatype ZipSource = ZipSource(entries: seq<InEntry>, endFails: bool)

  /** An entry of the output archive. */
  datatype OutEntry = OutEntry(name: string, data: seq<byte>)

  /**
   * The bytes the copy loop writes for one entry: it stops at the first
   * failing read, at the first read of zero bytes (`n <= 0`) and at the end.
   */
  function EntryBytes(stream: seq<Read>): seq<byte> {
    if stream == [] then []
    else match stream[0]
      case Fail => []
      case Chunk(d) => if d == [] then [] else d + EntryBytes(stream[1..])
  }

  /** Whether the copy of an entry ends with a failing read (and an exception). */
  predicate EntryCopyThrows(stream: seq<Read>) {
    if stream == [] then false
    else match stream[0]
      case Fail => true
      case Chunk(d) => d != [] && EntryCopyThrows(stream[1..])
  }

  function NamesOf(out: seq<OutEntry>): set<string> {
    set i | 0 <= i < |out| :: out[i].name
  }

  /**
   * What the loop has written after the entries `es`: an entry is added
   * when the output does not yet hold its name (`putNextEntry` refuses a
   * duplicate name and the refusal is swallowed), with the bytes copied
   * before its data ended or failed.
   */
  function Salvaged(es: seq<InEntry>): seq<OutEntry> {
    if es == [] then []
    else
      var prev := Salvaged(es[..|es| - 1]);
      var e := es[|es| - 1];
      if e.name in NamesOf(prev) then prev else prev + [OutEntry(e.name, EntryBytes(e.data))]
  }

  /** How many entries the loop takes from `es`: up to and including the first whose close fails. */
  function SalvageStop(es: seq<InEntry>): (n: nat)
    ensures n <= |es|
    ensures forall j :: 0 <= j < n - 1 ==> !es[j].closeFails
    ensures n < |es| ==> n > 0 && es[n - 1].closeFails
    ensures n == |es| && n > 0 && es[n - 1].closeFails ==> forall j :: 0 <= j < n - 1 ==> !es[j].closeFails
  {
    if es == [] then 0
    else if es[0].closeFails then 1
    else 1 + SalvageStop(es[1..])
  }

  lemma NamesOfAppend(out: seq<OutEntry>, e: OutEntry)
    ensures NamesOf(out + [e]) == NamesOf(out) + {e.name}
  {
    var s := out + [e];
    assert s[|out|].name == e.name;
    forall x | x in NamesOf(out) ensures x in NamesOf(s) {
      var i :| 0 <= i < |out| && out[i].name == x;
      assert s[i].name == x;
    }
  }

  /** The output holds no two entries with the same name. */
  lemma {:induction false} SalvagedNamesDistinct(es: seq<InEntry>)
    ensures forall a, b :: 0 <= a < b < |Salvaged(es)| ==> Salvaged(es)[a].name != Salvaged(es)[b].name
  {
    if es != [] {
      SalvagedNamesDistinct(es[..|es| - 1]);
      var prev := Salvaged(es[..|es| - 1]);
      var e := es[|es| - 1];
      if e.name !in NamesOf(prev) {
        forall a | 0 <= a < |prev| ensures prev[a].name != e.name {
          assert prev[a].name in NamesOf(prev);
        }
      }
    }
  }

  /** Every input name reaches the output, and no other name does. */
  lemma {:induction false} SalvagedNamesCover(es: seq<InEntry>)
    ensures NamesOf(Salvaged(es)) == set i | 0 <= i < |es| :: es[i].name
  {
    if es != [] {
      var init := es[..|es| - 1];
      var e := es[|es| - 1];
      SalvagedNamesCover(init);
      var prev := Salvaged(init);
      if e.name !in NamesOf(prev) {
        NamesOfAppend(prev, OutEntry(e.name, EntryBytes(e.data)));
      }
      var inNames := set i | 0 <= i < |es| :: es[i].name;
      var initNames := set i | 0 <= i < |init| :: init[i].name;
      assert inNames == initNames + {e.name} by {
        forall x | x in inNames ensures x in initNames + {e.name} {
          var i :| 0 <= i < |es| && es[i].name == x;
          if i < |init| { assert init[i].name == x; }
        }
        forall x | x in initNames ensures x in inNames {
          var i :| 0 <= i < |init| && init[i].name == x;
          assert es[i].name == x;
        }
        assert es[|es| - 1].name == e.name;
      }
    }
  }

  /**
   * With distinct names every entry survives, in input order, each with the
   * bytes read before its data ended or failed: a corrupt entry between
   * good ones costs only its own unread bytes.
   */
  lemma {:induction false} SalvagedKeepsDistinctEntries(es: seq<InEntry>)
    requires forall a, b :: 0 <= a < b < |es| ==> es[a].name != es[b].name
    ensures |Salvaged(es)| == |es|
    ensures forall i :: 0 <= i < |es| ==>
      Salvaged(es)[i] == OutEntry(es[i].name, EntryBytes(es[i].data))
  {
    if es != [] {
      var init := es[..|es| - 1];
      var e := es[|es| - 1];
      SalvagedKeepsDistinctEntries(init);
      SalvagedNamesCover(init);
      forall i | 0 <= i < |init| ensures init[i].name != e.name {
        assert es[i].name != es[|es| - 1].name;
      }
      assert e.name !in NamesOf(Salvaged(init));
    }
  }

  /**
   * The bytes kept for an entry are the bytes its reads delivered, cut at
   * the first empty read: what was written before a failure stays.
   */
  lemma {:induction false} EntryBytesPrefix(stream: seq<Read>)
    ensures |EntryBytes(stream)| <= |Delivered(stream)|
    ensures EntryBytes(stream) == Delivered(stream)[..|EntryBytes(stream)|]
    ensures (forall i :: 0 <= i < |stream| ==> stream[i] != Chunk([])) ==>
      EntryBytes(stream) == Delivered(stream)
  {
    if stream != [] {
      EntryBytesPrefix(stream[1..]);
      match stream[0]
      case Fail =>
      case Chunk(d) =>
        if d != [] {
          assert forall i :: 0 <= i < |stream[1..]| ==> stream[1..][i] == stream[i + 1];
        }
    }
  }

  lemma {:induction false} EntryBytesAppend(stream: seq<Read>, d: seq<byte>)
    requires !EntryCopyThrows(stream)
    requires forall i :: 0 <= i < |stream| ==> stream[i].Chunk? && stream[i].data != []
    ensures EntryBytes(stream + [Chunk(d)]) == EntryBytes(stream) + d
  {
    if stream == [] {
      assert [Chunk(d)][1..] == [];
    } else {
      assert (stream + [Chunk(d)])[1..] == stream[1..] + [Chunk(d)];
      EntryBytesAppend(stream[1..], d);
    }
  }

  /** `ZipOutputStream`: the entries written so far and the names it has seen. */
  class ZipSink {
    var written: seq<OutEntry>
    var names: set<string>
    var open: bool  // an entry is current (`putNextEntry` succeeded, not yet closed)

    ghost predicate Valid()
      reads this
    {
      names == NamesOf(written) && (open ==> |written| > 0)
    }

    constructor ()
      ensures Valid() && written == [] && !open
    {
      written, names, open := [], {}, false;
    }

    /** `putNextEntry`: refuses (throws on) a name already written. */
    method PutNextEntry(name: string) returns (ok: bool)
      requires Valid()
      modifies this
      ensures Valid()
      ensures ok <==> name !in old(names)
      ensures ok ==> written == old(written) + [OutEntry(name, [])] && open
      ensures !ok ==> written == old(written) && !open
    {
      open := false;
      if name in names {
        return false;
      }
      NamesOfAppend(written, OutEntry(name, []));
      written := written + [OutEntry(name, [])];
      names := names + {name};
      open := true;
      return true;
    }

    /** `write`: appends to the current entry. */
    method Write(d: seq<byte>)
      requires Valid() && open
      modifies this
      ensures Valid() && open
      ensures |written| == |old(written)|
      ensures written[..|written| - 1] == old(written)[..|written| - 1]
      ensures written[|written| - 1] ==
        OutEntry(old(written)[|written| - 1].name, old(written)[|written| - 1].data + d)
    {
      var last := written[|written| - 1];
      var updated := OutEntry(last.name, last.data + d);
      assert NamesOf(written[|written| - 1 := updated]) == NamesOf(written) by {
        var w := written[|written| - 1 := updated];
        forall x | x in NamesOf(written) ensures x in NamesOf(w) {
          var i :| 0 <= i < |written| && written[i].name == x;
          assert w[i].name == x;
        }
        forall x | x in NamesOf(w) ensures x in NamesOf(written) {
          var i :| 0 <= i < |w| && w[i].name == x;
          assert written[i].name == x;
        }
      }
      written := written[|written| - 1 := updated];
    }

    /** `closeEntry`. */
    method CloseEntry()
      requires Valid()
      modifies this
      ensures Valid() && !open && written == old(written)
    {
      open := false;
    }
  }

  /**
   * The inner copy loop of one entry (`while (true) { n = read; if (n <= 0)
   * break; write }`): appends `EntryBytes(data)` to the current entry;
   * `threw` reports the failing read that ends it with an exception.
   */
  method CopyEntryData(data: seq<Read>, zos: ZipSink) returns (threw: bool)
    requires zos.Valid() && zos.open
    modifies zos
    ensures zos.Valid() && zos.open
    ensures |zos.written| == |old(zos.written)|
    ensures zos.written[..|zos.written| - 1] == old(zos.written)[..|zos.written| - 1]
    ensures zos.written[|zos.written| - 1] ==
      OutEntry(old(zos.written)[|zos.written| - 1].name,
               old(zos.written)[|zos.written| - 1].data + EntryBytes(data))
    ensures threw <==> EntryCopyThrows(data)
  {
    ghost var last := zos.written[|zos.written| - 1];
    var i := 0;
    while i < |data|
      invariant 0 <= i <= |data|
      invariant zos.Valid() && zos.open
      invariant |zos.written| == |old(zos.written)|
      invariant zos.written[..|zos.written| - 1] == old(zos.written)[..|zos.written| - 1]
      invariant forall j :: 0 <= j < i ==> data[j].Chunk? && data[j].data != []
      invariant !EntryCopyThrows(data[..i])
      invariant zos.written[|zos.written| - 1] == OutEntry(last.name, last.data + EntryBytes(data[..i]))
    {
      match data[i]
      case Fail =>
        EntryStopsAt(data, i);
        return true;
      case Chunk(d) =>
        if d == [] {
          EntryStopsAt(data, i);
          return false;
        }
        zos.Write(d);
        assert data[..i + 1] == data[..i] + [Chunk(d)];
        EntryBytesAppend(data[..i], d);
        EntryThrowsAppend(data[..i], d);
      i := i + 1;
    }
    assert data[..i] == data;
    return false;
  }

  /** Reads after the one that ends the copy (a failure or an empty chunk) do not matter. */
  lemma {:induction false} EntryStopsAt(stream: seq<Read>, i: nat)
    requires i < |stream| && (stream[i] == Fail || stream[i] == Chunk([]))
    requires forall j :: 0 <= j < i ==> stream[j].Chunk? && stream[j].data != []
    ensures EntryBytes(stream) == EntryBytes(stream[..i])
    ensures EntryCopyThrows(stream) <==> stream[i] == Fail
  {
    if i > 0 {
      assert stream[1..][..i - 1] == stream[..i][1..];
      EntryStopsAt(stream[1..], i - 1);
    }
  }

  lemma {:induction false} EntryThrowsAppend(stream: seq<Read>, d: seq<byte>)
    requires forall i :: 0 <= i < |stream| ==> stream[i].Chunk? && stream[i].data != []
    requires d != []
    ensures !EntryCopyThrows(stream + [Chunk(d)])
  {
    if stream == [] {
      assert [Chunk(d)][1..] == [];
    } else {
      assert (stream + [Chunk(d)])[1..] == stream[1..] + [Chunk(d)];
      EntryThrowsAppend(stream[1..], d);
    }
  }

  /**
   * One pass of the entry loop's body, without the close of the input
   * entry: `putNextEntry`, the copy, and `closeEntry` on the output when the
   * copy did not throw. A refused or failing entry is skipped.
   */
  method SalvageEntry(e: InEntry, zos: ZipSink)
    requires zos.Valid()
    modifies zos
    ensures zos.Valid()
    ensures zos.written ==
      if e.name in NamesOf(old(zos.written)) then old(zos.written)
      else old(zos.written) + [OutEntry(e.name, EntryBytes(e.data))]
  {
    ghost var before := zos.written;
    var put := zos.PutNextEntry(e.name);
    if put {
      assert zos.written[..|zos.written| - 1] == before;
      var threw := CopyEntryData(e.data, zos);
      if !threw {
        zos.CloseEntry();
      }
      var n := |zos.written|;
      assert zos.written[..n - 1] == before;
      assert zos.written[n - 1] == OutEntry(e.name, EntryBytes(e.data));
      assert zos.written == zos.written[..n - 1] + [zos.written[n - 1]];
    }
  }

  /**
   * The entry loop of `salvageZipLike`, on a fresh output stream. It ends
   * normally (`ok`) only when no entry's close fails and `nextEntry` reaches
   * the end; either way the output holds `Salvaged` of the entries taken.
   */
  method SalvageEntries(src: ZipSource, zos: ZipSink) returns (ok: bool)
    requires zos.Valid() && zos.written == []
    modifies zos
    ensures zos.Valid()
    ensures zos.written == Salvaged(src.entries[..SalvageStop(src.entries)])
    ensures ok <==> !src.endFails && forall j :: 0 <= j < |src.entries| ==> !src.entries[j].closeFails
  {
    var es := src.entries;
    var i := 0;
    while i < |es|
      invariant 0 <= i <= |es|
      invariant zos.Valid()
      invariant forall j :: 0 <= j < i ==> !es[j].closeFails
      invariant zos.written == Salvaged(es[..i])
    {
      var e := es[i];
      assert es[..i + 1][..i] == es[..i];
      SalvageEntry(e, zos);
      if e.closeFails {
        StopAt(es, i);
        return false;
      }
      i := i + 1;
    }
    assert es[..i] == es;
    NoStop(es);
    return !src.endFails;
  }

  lemma {:induction false} NoStop(es: seq<InEntry>)
    requires forall j :: 0 <= j < |es| ==> !es[j].closeFails
    ensures SalvageStop(es) == |es|
  {
    if es != [] {
      NoStop(es[1..]);
    }
  }

  lemma {:induction false} StopAt(es: seq<InEntry>, i: nat)
    requires i < |es| && es[i].closeFails
    requires forall j :: 0 <= j < i ==> !es[j].closeFails
    ensures SalvageStop(es) == i + 1
  {
    if i > 0 {
      StopAt(es[1..], i - 1);
    }
  }
}
