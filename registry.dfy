/** The process-wide registry of redirection tables (maptel.cc): a handle
    counter and a map from handle to table, changed in place by the five
    operations of the public interface. */
module Maptel {
  import opened TelNumbers
  import opened Resolution

  /** Every key and every destination of t is a stored number. */
  ghost predicate WellFormedTable(t: Table) {
    forall k :: k in t ==> IsStoredNumber(k) && IsStoredNumber(t[k])
  }

  /** What transform_tel_to_dst asserts of the caller's capacity len before
      writing: room for the resolved key (its terminator included) when the
      chain ends, and more than the length of the source key on a cycle. */
  predicate EnoughRoom(t: Table, firstKey: string, len: nat): (ok: bool)
    ensures ok ==> |Resolve(t, firstKey)| <= len
  {
    var last := Walk(t, firstKey, {});
    if last in t then len > |firstKey| else len >= |last|
  }

  /** In a table of stored numbers, every source that is a stored number
      resolves to a stored number. */
  lemma ResolvesToStoredNumber(t: Table, src: string)
    requires WellFormedTable(t) && IsStoredNumber(src)
    ensures IsStoredNumber(Resolve(t, src))
  {
    var last := Walk(t, src, {});
    if last != src && last !in t {
      var k :| k in t && t[k] == last;
    }
  }

  /** set_tel_dst_value: copies key into the caller's buffer from index 0 on,
      one character at a time. */
  method SetTelDstValue(telDst: array<char>, key: string)
    requires |key| <= telDst.Length
    modifies telDst
    ensures telDst[..|key|] == key
    ensures telDst[|key|..] == old(telDst[|key|..])
  {
    for i := 0 to |key|
      invariant telDst[..i] == key[..i]
      invariant telDst[|key|..] == old(telDst[|key|..])
    {
      telDst[i] := key[i];
    }
  }

  class Registry {
    /** The next handle to issue (idCount). */
    var idCount: nat
    /** The live tables by handle (telMap). */
    var tables: map<nat, Table>

    /** Every live handle was issued before, and every table holds only
        stored numbers. */
    ghost predicate Valid(): (ok: bool)
      reads this
      ensures ok ==> idCount !in tables
    {
      (forall id :: id in tables ==> id < idCount) &&
      (forall id :: id in tables ==> WellFormedTable(tables[id]))
    }

    /** The registry as it is before the first call: no table, and the
        counter at zero. */
    constructor ()
      ensures Valid()
      ensures idCount == 0 && tables == map[]
    {
      idCount := 0;
      tables := map[];
    }

    /** maptel_create: installs an empty table under the current counter
        value, returns that value and advances the counter by one. The new
        handle is larger than every handle issued before, live or deleted. */
    method Create() returns (id: nat)
      requires Valid()
      modifies this
      ensures Valid()
      ensures id == old(idCount) && idCount == old(idCount) + 1
      ensures id !in old(tables)
      ensures tables == old(tables)[id := map[]]
    {
      if idCount !in tables {
        tables := tables[idCount := map[]];
      }
      id := idCount;
      idCount := idCount + 1;
    }

    /** maptel_delete: removes the table of a live handle; every other table
        and the counter stay as they were. */
    method Delete(id: nat)
      requires Valid() && id in tables
      modifies this
      ensures Valid()
      ensures idCount == old(idCount)
      ensures tables == old(tables) - {id}
    {
      tables := tables - {id};
    }

    /** maptel_insert: maps the source number to the destination number in
        the table of id, replacing an earlier destination; every other entry
        and every other table stay as they were. */
    method Insert(id: nat, telSrc: seq<char>, telDst: seq<char>)
      requires Valid() && id in tables
      requires IsTelNum(telSrc) && IsTelNum(telDst)
      modifies this
      ensures Valid()
      ensures idCount == old(idCount)
      ensures tables == old(tables)[id := old(tables)[id][TelNumString(telSrc) := TelNumString(telDst)]]
    {
      AcceptedIsDigitRun(telSrc);
      AcceptedIsDigitRun(telDst);
      var key, srcOk := TelNumToString(telSrc);
      var destinationNumber, dstOk := TelNumToString(telDst);
      assert srcOk && dstOk;
      tables := tables[id := tables[id][key := destinationNumber]];
    }

    /** maptel_erase: removes the mapping of the source number from the table
        of id, and does nothing when there is none; every other entry and
        every other table stay as they were. */
    method Erase(id: nat, telSrc: seq<char>)
      requires Valid() && id in tables
      requires IsTelNum(telSrc)
      modifies this
      ensures Valid()
      ensures idCount == old(idCount)
      ensures tables == old(tables)[id := old(tables)[id] - {TelNumString(telSrc)}]
      ensures TelNumString(telSrc) !in old(tables)[id] ==> tables == old(tables)
    {
      AcceptedIsDigitRun(telSrc);
      var key, srcOk := TelNumToString(telSrc);
      assert srcOk;
      if key in tables[id] {
        tables := tables[id := tables[id] - {key}];
      } else {
        assert tables[id] - {key} == tables[id];
        assert tables[id := tables[id]] == tables;
      }
    }

    /** transform_tel_to_dst: writes the key the walk stopped at when it is
        unmapped, and the first key when it is still mapped (a cycle). */
    method TransformTelToDst(id: nat, telDst: array<char>, len: nat, key: string, firstKey: string)
      requires id in tables && len <= telDst.Length
      requires key !in tables[id] ==> len >= |key|
      requires key in tables[id] ==> len > |firstKey|
      modifies telDst
      ensures var written := if key in tables[id] then firstKey else key;
        telDst[..|written|] == written && telDst[|written|..] == old(telDst[|written|..])
    {
      if key !in tables[id] {
        SetTelDstValue(telDst, key);
      } else {
        SetTelDstValue(telDst, firstKey);
      }
    }

    /** maptel_transform: resolves the source number in the table of id and
        writes the result, terminator included, at the start of the caller's
        buffer, leaving the rest of the buffer as it was. */
    method Transform(id: nat, telSrc: seq<char>, telDst: array<char>, len: nat)
      requires Valid() && id in tables
      requires IsTelNum(telSrc)
      requires len <= telDst.Length
      requires EnoughRoom(tables[id], TelNumString(telSrc), len)
      modifies telDst
      ensures var r := Resolve(tables[id], TelNumString(telSrc));
        IsStoredNumber(r) && telDst[..|r|] == r && telDst[|r|..] == old(telDst[|r|..])
    {
      AcceptedIsDigitRun(telSrc);
      ResolvesToStoredNumber(tables[id], TelNumString(telSrc));
      var visited: set<string> := {};
      var key, srcOk := TelNumToString(telSrc);
      assert srcOk;
      var firstKey := key;
      while key in tables[id] && key !in visited
        invariant Walk(tables[id], key, visited) == Walk(tables[id], firstKey, {})
        decreases |tables[id].Keys - visited|
      {
        assert tables[id].Keys - (visited + {key}) == (tables[id].Keys - visited) - {key};
        visited := visited + {key};
        key := tables[id][key];
      }
      TransformTelToDst(id, telDst, len, key, firstKey);
    }
  }

  /** The numbers 100, 200 and 300 as callers pass them and as the tables
      store them. */
  lemma SampleNumbers()
    ensures IsTelNum("100\0") && TelNumString("100\0") == "100\0"
    ensures IsTelNum("200\0") && TelNumString("200\0") == "200\0"
    ensures IsTelNum("300\0") && TelNumString("300\0") == "300\0"
  {
    AcceptsDigitRun("100", []);
    assert "100" + [TERMINATOR] + [] == "100\0";
    AcceptsDigitRun("200", []);
    assert "200" + [TERMINATOR] + [] == "200\0";
    AcceptsDigitRun("300", []);
    assert "300" + [TERMINATOR] + [] == "300\0";
  }

  /** A client run: 100 to 200 and 200 to 300 resolve 100 to 300, and 300,
      which is not mapped, to itself. */
  method ChainScenario()
  {
    SampleNumbers();
    var reg := new Registry();
    var h := reg.Create();
    reg.Insert(h, "100\0", "200\0");
    reg.Insert(h, "200\0", "300\0");
    var t := reg.tables[h];
    assert "100\0" in t && t["100\0"] == "200\0";
    assert "200\0" in t && t["200\0"] == "300\0";
    assert t.Keys == {"100\0", "200\0"};
    assert "300\0" !in t;
    TwoHops(t, "100\0", "200\0", "300\0");
    var out := new char[8];
    reg.Transform(h, "100\0", out, 8);
    assert out[..4] == "300\0";
    UnmappedResolvesToItself(t, "300\0");
    reg.Transform(h, "300\0", out, 8);
    assert out[..4] == "300\0";
  }

  /** A client run: 200 and 300 redirected to each other each resolve to
      themselves, and erasing 300 twice leaves what erasing it once left. */
  method CycleScenario()
  {
    SampleNumbers();
    var reg := new Registry();
    var h := reg.Create();
    reg.Insert(h, "200\0", "300\0");
    reg.Insert(h, "300\0", "200\0");
    var t := reg.tables[h];
    assert "200\0" in t && t["200\0"] == "300\0";
    assert "300\0" in t && t["300\0"] == "200\0";
    TwoCycle(t, "200\0", "300\0");
    var out := new char[8];
    reg.Transform(h, "300\0", out, 8);
    assert out[..4] == "300\0";
    reg.Erase(h, "300\0");
    var once := reg.tables;
    reg.Erase(h, "300\0");
    assert reg.tables == once;
  }

  /** A client run: a handle is not issued again after its table is
      deleted, and a table is not affected by changes under another handle. */
  method HandleScenario()
  {
    SampleNumbers();
    var reg := new Registry();
    var h1 := reg.Create();
    var h2 := reg.Create();
    reg.Insert(h1, "100\0", "200\0");
    assert reg.tables[h2] == map[];
    reg.Delete(h1);
    var h3 := reg.Create();
    assert h3 != h1 && h3 != h2;
  }
}
