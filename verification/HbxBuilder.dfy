/** The loops that build the tables: byte buffers that grow and cursors that advance, with
  * dictionaries from module names to what was recorded for them. */
module HbxBuilder {
  import opened HbxFormat
  import opened HbxTables

  lemma {:induction false} OffsetStep(ns: seq<Name>, k: nat)
    requires k < |ns|
    ensures Strings(ns[..k + 1]) == Strings(ns[..k]) + ns[k] + [0]
  {
    assert ns[..k + 1][..k] == ns[..k];
  }

  lemma {:induction false} WordsPush(ws: seq<nat>, w: nat)
    ensures Words(ws + [w]) == Words(ws) + Le4(w)
  {
    hide Le4;
    assert (ws + [w])[..|ws|] == ws;
  }

  lemma {:induction false} PairsPush(ps: seq<Pair>, k: nat)
    requires k < |ps|
    ensures Words(Pairs(ps[..k + 1])) == Words(Pairs(ps[..k])) + (Le4(ps[k].first) + Le4(ps[k].second))
  {
    hide Le4, Words;
    var before := Pairs(ps[..k]);
    assert ps[..k + 1][..k] == ps[..k];
    assert before + [ps[k].first, ps[k].second] == before + [ps[k].first] + [ps[k].second];
    WordsPush(before, ps[k].first);
    WordsPush(before + [ps[k].first], ps[k].second);
  }

  // ------------------------------------------------------------------- exports

  datatype Table = Table(blob: seq<Byte>, rva: nat, count: nat) | Raised

  method BuildExports(payloadLen: nat, exports: seq<Export>) returns (r: Table)
    ensures r.Raised? <==> !ExportsPack(payloadLen, exports)
    ensures r.Table? ==> r == Table(ExportBlob(payloadLen, exports), ExportAt(payloadLen, exports), |exports|)
  {
    hide Strings, Words, Pairs, Le4, Offset, Ascii;
    ghost var ns := ExportNames(exports);
    ghost var ps := ExportPairs(payloadLen, exports);
    var strings: seq<Byte> := [];
    var names: seq<nat> := [];
    NothingYet();
    assert ns[..0] == [];
    for i := 0 to |exports|
      invariant strings == Strings(ns[..i])
      invariant |names| == i
      invariant forall k :: 0 <= k < i ==> names[k] == ps[k].first && Ascii(ns[k])
    {
      assert ns[i] == exports[i].name;
      if !Ascii(exports[i].name) {
        return Raised;
      }
      OffsetIs(ns, i);
      names := names + [payloadLen + |strings|];
      OffsetStep(ns, i);
      strings := strings + exports[i].name + [0];
    }
    assert ns[..|exports|] == ns;
    if |exports| >= LIMIT {
      return Raised;
    }
    var blob := strings + Le4(|exports|);
    FirstWord(|exports|);
    assert ps[..0] == [];
    for i := 0 to |exports|
      invariant blob == strings + (Words([|exports|]) + Words(Pairs(ps[..i])))
      invariant forall k :: 0 <= k < i ==> ps[k].first < LIMIT && ps[k].second < LIMIT
    {
      assert names[i] == ps[i].first && exports[i].rva == ps[i].second;
      if names[i] >= LIMIT || exports[i].rva >= LIMIT {
        return Raised;
      }
      PairsPush(ps, i);
      blob := blob + Le4(names[i]) + Le4(exports[i].rva);
    }
    assert ps[..|exports|] == ps;
    WordsAppend([|exports|], Pairs(ps));
    return Table(blob, payloadLen + |strings|, |exports|);
  }

  lemma {:induction false} OffsetIs(ns: seq<Name>, k: nat)
    requires k <= |ns|
    ensures Offset(ns, k) == |Strings(ns[..k])|
  {}

  lemma {:induction false} NothingYet()
    ensures Strings([]) == [] && Words([]) == [] && Pairs([]) == []
  {}

  lemma {:induction false} FirstWord(w: nat)
    ensures Words([w]) == Le4(w)
    ensures Pairs([]) == [] && Words([]) == []
  {
    hide Le4;
    assert [w][..0] == [];
  }

  const EXPORT_MARKER: seq<Byte> := [0x48, 0x42, 0x45, 0x31]

  ghost predicate MarkerAt(b: seq<Byte>, marker: seq<Byte>, at: int) {
    0 <= at && at + |marker| <= |b| && b[at..at + |marker|] == marker
  }

  /** Where the marker first occurs, or -1. */
  method FindMarker(b: seq<Byte>, marker: seq<Byte>) returns (at: int)
    ensures at == -1 || MarkerAt(b, marker, at)
    ensures forall k :: 0 <= k && (at == -1 || k < at) ==> !MarkerAt(b, marker, k)
  {
    at := 0;
    while at + |marker| <= |b|
      invariant 0 <= at
      invariant forall k :: 0 <= k < at ==> !MarkerAt(b, marker, k)
      decreases |b| - at
    {
      if b[at..at + |marker|] == marker {
        return;
      }
      at := at + 1;
    }
    at := -1;
  }

  datatype Scan = Scan(exports: seq<Export>, cleared: seq<Byte>) | Refused(fault: Fault)

  /** `find_exports`: the table after the first marker, and the payload with the marker blanked.
    * The returned `at` is where the marker was found. */
  method FindExports(payload: seq<Byte>) returns (r: Scan, at: int)
    ensures at == -1 ==> r == Scan([], payload) && forall k :: 0 <= k ==> !MarkerAt(payload, EXPORT_MARKER, k)
    ensures at != -1 ==> MarkerAt(payload, EXPORT_MARKER, at) && forall k :: 0 <= k < at ==> !MarkerAt(payload, EXPORT_MARKER, k)
    ensures at != -1 ==>
              match DecodeTable(payload, at + 4)
              case Ok(es) => r == Scan(es, payload[..at] + [0, 0, 0, 0] + payload[at + 4..])
              case Err(f) => r == Refused(f)
  {
    hide Dword, RawName;
    at := FindMarker(payload, EXPORT_MARKER);
    if at < 0 {
      return Scan([], payload), at;
    }
    var m := at;
    if m + 8 > |payload| {
      return Refused(NoCount), at;
    }
    var count := Dword(payload, m + 4);
    if m + 8 + 8 * count > |payload| {
      return Refused(DoesNotFit), at;
    }
    var exports: seq<Export> := [];
    for i := 0 to count
      invariant DecodeEntries(payload, m + 8, i) == Ok(exports)
    {
      var nameRva, rva := Dword(payload, m + 8 + 8 * i), Dword(payload, m + 8 + 8 * i + 4);
      ghost var next := DecodeEntries(payload, m + 8, i + 1);
      if nameRva >= |payload| {
        FaultStays(payload, m + 8, i + 1, count);
        return Refused(NamePast(i)), at;
      }
      var raw := RawName(payload, nameRva);
      if raw == [] {
        FaultStays(payload, m + 8, i + 1, count);
        return Refused(EmptyName(i)), at;
      }
      if !Ascii(raw) {
        FaultStays(payload, m + 8, i + 1, count);
        return Refused(NotAscii(i)), at;
      }
      exports := exports + [Export(raw, rva)];
    }
    return Scan(exports, payload[..m] + [0, 0, 0, 0] + payload[m + 4..]), at;
  }

  lemma {:induction false} FaultStays(b: seq<Byte>, base: nat, i: nat, n: nat)
    requires i <= n && base + 8 * n <= |b|
    ensures DecodeEntries(b, base, i).Err? ==> DecodeEntries(b, base, n) == DecodeEntries(b, base, i)
    decreases n
  {
    if i < n {
      FaultStays(b, base, i, n - 1);
    }
  }

  // ------------------------------------------------------------------- imports

  /** The dictionary of the grouping loop: for each module its imports in order. */
  ghost predicate Grouped(ims: seq<Import>, modules: seq<Name>, symbols: map<Name, seq<Import>>) {
    && modules == Modules(ims)
    && forall m :: m in modules ==> m in symbols && symbols[m] == Of(ims, m)
  }

  method GroupImports(ims: seq<Import>) returns (modules: seq<Name>, symbols: map<Name, seq<Import>>)
    ensures Grouped(ims, modules, symbols)
  {
    hide Occurs;
    modules, symbols := [], map[];
    for i := 0 to |ims|
      invariant Grouped(ims[..i], modules, symbols)
      invariant forall m :: m in symbols ==> m in modules
    {
      var x := ims[i];
      assert ims[..i + 1][..i] == ims[..i];
      if x.mod !in symbols {
        NotYet(ims[..i], x.mod);
        modules := modules + [x.mod];
        symbols := symbols[x.mod := []];
      }
      symbols := symbols[x.mod := symbols[x.mod] + [x]];
    }
    assert ims[..|ims|] == ims;
  }

  lemma {:induction false} NotYet(ims: seq<Import>, m: Name)
    requires m !in Modules(ims)
    ensures Of(ims, m) == []
  {
    if ims != [] {
      NotYet(ims[..|ims| - 1], m);
    }
  }

  method ModuleStrings(payloadLen: nat, modules: seq<Name>) returns (ok: bool, strings: seq<Byte>, rva: map<Name, nat>)
    requires Distinct(modules)
    ensures ok <==> AllAscii(modules)
    ensures strings == Strings(modules)
    ensures forall g :: 0 <= g < |modules| ==> modules[g] in rva && rva[modules[g]] == payloadLen + Offset(modules, g)
  {
    hide Strings, Ascii;
    ok, strings, rva := true, [], map[];
    NothingYet();
    assert modules[..0] == [];
    for g := 0 to |modules|
      invariant ok <==> forall h :: 0 <= h < g ==> Ascii(modules[h])
      invariant strings == Strings(modules[..g])
      invariant forall h :: 0 <= h < g ==> modules[h] in rva && rva[modules[h]] == payloadLen + Offset(modules, h)
    {
      ok := ok && Ascii(modules[g]);
      rva := rva[modules[g] := payloadLen + |strings|];
      OffsetStep(modules, g);
      strings := strings + modules[g] + [0];
    }
    assert modules[..|modules|] == modules;
  }

  /** The symbol names of one module: `n` names of the whole list are already there. */
  method AddSymbols(at: nat, entries: seq<Import>, ghost names: seq<Name>, ghost n: nat)
      returns (ok: bool, bytes: seq<Byte>, rvas: seq<nat>)
    requires n + |entries| <= |names| && names[n..n + |entries|] == Symbols(entries)
    ensures |rvas| == |entries|
    ensures ok <==> forall j :: n <= j < n + |entries| ==> Ascii(names[j])
    ensures Strings(names[..n]) + bytes == Strings(names[..n + |entries|])
    ensures forall j :: 0 <= j < |entries| ==> rvas[j] == at + Offset(names, n + j) - Offset(names, n)
  {
    hide Strings, Ascii;
    ok, bytes, rvas := true, [], [];
    for j := 0 to |entries|
      invariant |rvas| == j
      invariant ok <==> forall i :: n <= i < n + j ==> Ascii(names[i])
      invariant Strings(names[..n]) + bytes == Strings(names[..n + j])
      invariant forall i :: 0 <= i < j ==> rvas[i] == at + Offset(names, n + i) - Offset(names, n)
    {
      assert names[n + j] == names[n..n + |entries|][j] == entries[j].symbol;
      OffsetStep(names, n + j);
      ok := ok && Ascii(entries[j].symbol);
      rvas := rvas + [at + |bytes|];
      bytes := bytes + entries[j].symbol + [0];
    }
  }

  /** Where the symbol names of module `g` are. */
  ghost predicate GroupRvas(ims: seq<Import>, modules: seq<Name>, rvas: seq<nat>, names: seq<Name>, at: nat, g: nat)
    requires g < |modules|
  {
    && |rvas| == |Of(ims, modules[g])|
    && Start(ims, modules, g) + |rvas| <= |names|
    && forall j :: 0 <= j < |rvas| ==> rvas[j] == at + Offset(names, Start(ims, modules, g) + j)
  }

  ghost predicate SymbolRvas(ims: seq<Import>, modules: seq<Name>, rva: map<Name, seq<nat>>, names: seq<Name>, at: nat, count: nat)
    requires count <= |modules|
  {
    forall g :: 0 <= g < count ==> modules[g] in rva && GroupRvas(ims, modules, rva[modules[g]], names, at, g)
  }

  /** The symbol names of every module, after the module names. */
  method SymbolStrings(ghost ims: seq<Import>, at: nat, modules: seq<Name>, symbols: map<Name, seq<Import>>)
      returns (ok: bool, strings: seq<Byte>, rva: map<Name, seq<nat>>)
    requires Grouped(ims, modules, symbols) && Distinct(modules)
    ensures ok <==> AllAscii(Symbols(Flat(ims, modules)))
    ensures strings == Strings(Symbols(Flat(ims, modules)))
    ensures SymbolRvas(ims, modules, rva, Symbols(Flat(ims, modules)), at, |modules|)
  {
    hide Strings, Offset, Flat, Modules, Of, Ascii;
    ghost var fs := Flat(ims, modules);
    ghost var names := Symbols(fs);
    ok, strings, rva := true, [], map[];
    NothingYet();
    StartsAtZero(ims, modules);
    assert names[..0] == [];
    for g := 0 to |modules|
      invariant Start(ims, modules, g) <= |names|
      invariant ok <==> forall k :: 0 <= k < Start(ims, modules, g) ==> Ascii(names[k])
      invariant strings == Strings(names[..Start(ims, modules, g)])
      invariant SymbolRvas(ims, modules, rva, names, at, g)
    {
      var m := modules[g];
      ghost var n := Start(ims, modules, g);
      StartStep(ims, modules, g);
      GroupNames(ims, modules, g);
      OffsetIs(names, n);
      assert m in modules;
      var fine, bytes, rvas := AddSymbols(at + |strings|, symbols[m], names, n);
      assert GroupRvas(ims, modules, rvas, names, at, g);
      ok := ok && fine;
      rva := rva[m := rvas];
      strings := strings + bytes;
    }
    AllOfIt(ims, modules);
    assert names[..|names|] == names;
  }

  lemma {:induction false} StartsAtZero(ims: seq<Import>, ms: seq<Name>)
    ensures Start(ims, ms, 0) == 0
  {
    assert ms[..0] == [];
  }

  lemma {:induction false} AllOfIt(ims: seq<Import>, ms: seq<Name>)
    ensures Start(ims, ms, |ms|) == |Flat(ims, ms)|
  {
    assert ms[..|ms|] == ms;
  }

  lemma {:induction false} GroupNames(ims: seq<Import>, ms: seq<Name>, g: nat)
    requires g < |ms|
    ensures var n, k := Start(ims, ms, g), |Of(ims, ms[g])|;
            && n + k <= |Flat(ims, ms)|
            && Symbols(Flat(ims, ms))[n..n + k] == Symbols(Of(ims, ms[g]))
  {
    hide Flat, Of;
    StartStep(ims, ms, g);
    forall j | 0 <= j < |Of(ims, ms[g])|
      ensures Start(ims, ms, g) + j < |Flat(ims, ms)|
      ensures Flat(ims, ms)[Start(ims, ms, g) + j] == Of(ims, ms[g])[j]
    {
      FlatAt(ims, ms, g, j);
    }
  }

  ghost predicate ThunkStarts(ims: seq<Import>, modules: seq<Name>, thunks: map<Name, nat>, thunkBase: nat, count: nat)
    requires count <= |modules|
  {
    forall g :: 0 <= g < count ==> modules[g] in thunks && thunks[modules[g]] == thunkBase + 8 * Start(ims, modules, g)
  }

  method PlaceThunks(ghost ims: seq<Import>, thunkBase: nat, modules: seq<Name>, symbols: map<Name, seq<Import>>)
      returns (thunks: map<Name, nat>, at: nat)
    requires Grouped(ims, modules, symbols) && Distinct(modules)
    ensures ThunkStarts(ims, modules, thunks, thunkBase, |modules|)
    ensures at == thunkBase + 8 * |Flat(ims, modules)|
  {
    hide Start, Flat, Modules, Of;
    thunks, at := map[], thunkBase;
    StartsAtZero(ims, modules);
    for g := 0 to |modules|
      invariant at == thunkBase + 8 * Start(ims, modules, g)
      invariant ThunkStarts(ims, modules, thunks, thunkBase, g)
    {
      StartStep(ims, modules, g);
      assert modules[g] in modules;
      thunks := thunks[modules[g] := at];
      at := at + 8 * |symbols[modules[g]]|;
    }
    AllOfIt(ims, modules);
  }

  /** The slots that have to be allocated, counted over all modules. */
  method CountAllocated(ghost ims: seq<Import>, modules: seq<Name>, symbols: map<Name, seq<Import>>) returns (n: nat)
    requires Grouped(ims, modules, symbols)
    ensures n == Unnamed(Flat(ims, modules))
  {
    hide Unnamed, Flat, Modules, Of;
    ghost var fs := Flat(ims, modules);
    n := 0;
    NoneUnnamed();
    StartsAtZero(ims, modules);
    assert fs[..0] == [];
    for g := 0 to |modules|
      invariant Start(ims, modules, g) <= |fs| && n == Unnamed(fs[..Start(ims, modules, g)])
    {
      StartStep(ims, modules, g);
      assert modules[g] in modules;
      var entries := symbols[modules[g]];
      for j := 0 to |entries|
        invariant Start(ims, modules, g) + j <= |fs| && n == Unnamed(fs[..Start(ims, modules, g) + j])
      {
        FlatAt(ims, modules, g, j);
        UnnamedStep(fs, Start(ims, modules, g) + j);
        if entries[j].slot == Allocate {
          n := n + 1;
        }
      }
    }
    AllOfIt(ims, modules);
    assert fs[..|fs|] == fs;
  }

  lemma {:induction false} NoneUnnamed()
    ensures Unnamed([]) == 0
  {}

  lemma {:induction false} UnnamedStep(fs: seq<Import>, k: nat)
    requires k < |fs|
    ensures Unnamed(fs[..k + 1]) == Unnamed(fs[..k]) + (if fs[k].slot == Allocate then 1 else 0)
  {
    assert fs[..k + 1][..k] == fs[..k];
  }

  /** The thunks of one module: `n` of the whole list are already packed and `iat` is the next
    * free slot. */
  method PackGroup(entries: seq<Import>, rvas: seq<nat>, iat: nat, ghost fs: seq<Import>, ghost ps: seq<Pair>,
                   ghost iatBase: nat, ghost n: nat) returns (ok: bool, bytes: seq<Byte>, next: nat)
    requires |rvas| == |entries| && n + |entries| <= |fs| == |ps|
    requires forall j :: 0 <= j < |entries| ==> fs[n + j] == entries[j] && ps[n + j].first == rvas[j]
    requires forall k :: 0 <= k < |fs| ==> ps[k].second == SlotOf(fs, iatBase, k)
    requires iat == iatBase + 4 * Unnamed(fs[..n])
    ensures ok <==> forall k :: n <= k < n + |entries| ==> ps[k].first < LIMIT && ps[k].second < LIMIT
    ensures Words(Pairs(ps[..n])) + bytes == Words(Pairs(ps[..n + |entries|]))
    ensures next == iatBase + 4 * Unnamed(fs[..n + |entries|])
  {
    hide Words, Pairs, Unnamed, Le4;
    ok, bytes, next := true, [], iat;
    for j := 0 to |entries|
      invariant ok <==> forall k :: n <= k < n + j ==> ps[k].first < LIMIT && ps[k].second < LIMIT
      invariant Words(Pairs(ps[..n])) + bytes == Words(Pairs(ps[..n + j]))
      invariant next == iatBase + 4 * Unnamed(fs[..n + j])
    {
      UnnamedStep(fs, n + j);
      PairsPush(ps, n + j);
      assert fs[n + j] == entries[j];
      var slot := next;
      if entries[j].slot.At? {
        slot := entries[j].slot.rva;
      } else {
        next := next + 4;
      }
      assert ps[n + j] == Pair(rvas[j], slot);
      ok := ok && rvas[j] < LIMIT && slot < LIMIT;
      bytes := bytes + (Le4(rvas[j]) + Le4(slot));
    }
  }

  method PackThunks(ghost ims: seq<Import>, modules: seq<Name>, symbols: map<Name, seq<Import>>,
                    rva: map<Name, seq<nat>>, iatBase: nat, ghost names: seq<Name>, ghost at: nat)
      returns (ok: bool, bytes: seq<Byte>)
    requires Grouped(ims, modules, symbols) && names == Symbols(Flat(ims, modules))
    requires SymbolRvas(ims, modules, rva, names, at, |modules|)
    ensures ok <==> PairsFit(ThunkPairs(Flat(ims, modules), names, 0, at, iatBase))
    ensures bytes == Words(Pairs(ThunkPairs(Flat(ims, modules), names, 0, at, iatBase)))
  {
    hide Words, Pairs, Unnamed, Flat, Modules, Of, Offset, SlotOf;
    ghost var fs := Flat(ims, modules);
    ghost var ps := ThunkPairs(fs, names, 0, at, iatBase);
    var iat := iatBase;
    ok, bytes := true, [];
    NothingYet();
    NoneUnnamed();
    StartsAtZero(ims, modules);
    assert fs[..0] == [] && ps[..0] == [];
    for g := 0 to |modules|
      invariant Start(ims, modules, g) <= |fs|
      invariant ok <==> forall k :: 0 <= k < Start(ims, modules, g) ==> ps[k].first < LIMIT && ps[k].second < LIMIT
      invariant bytes == Words(Pairs(ps[..Start(ims, modules, g)]))
      invariant iat == iatBase + 4 * Unnamed(fs[..Start(ims, modules, g)])
    {
      ghost var n := Start(ims, modules, g);
      StartStep(ims, modules, g);
      var m := modules[g];
      assert m in modules && GroupRvas(ims, modules, rva[m], names, at, g);
      GroupIsThere(ims, modules, g);
      var fine, more, next := PackGroup(symbols[m], rva[m], iat, fs, ps, iatBase, n);
      ok, bytes, iat := ok && fine, bytes + more, next;
    }
    AllOfIt(ims, modules);
    assert ps[..|ps|] == ps;
  }

  lemma {:induction false} GroupIsThere(ims: seq<Import>, ms: seq<Name>, g: nat)
    requires g < |ms|
    ensures var n := Start(ims, ms, g);
            && n + |Of(ims, ms[g])| <= |Flat(ims, ms)|
            && forall j :: 0 <= j < |Of(ims, ms[g])| ==> Flat(ims, ms)[n + j] == Of(ims, ms[g])[j]
  {
    hide Flat, Of;
    StartStep(ims, ms, g);
    forall j | 0 <= j < |Of(ims, ms[g])|
      ensures Flat(ims, ms)[Start(ims, ms, g) + j] == Of(ims, ms[g])[j]
    {
      FlatAt(ims, ms, g, j);
    }
  }

  method PackDescriptors(ghost ims: seq<Import>, modules: seq<Name>, symbols: map<Name, seq<Import>>,
                         moduleRva: map<Name, nat>, thunks: map<Name, nat>, ghost names: seq<Name>,
                         ghost payloadLen: nat, ghost thunkBase: nat) returns (ok: bool, bytes: seq<Byte>)
    requires Grouped(ims, modules, symbols) && modules <= names
    requires ThunkStarts(ims, modules, thunks, thunkBase, |modules|)
    requires forall g :: 0 <= g < |modules| ==>
               modules[g] in moduleRva && moduleRva[modules[g]] == payloadLen + Offset(names, g)
    ensures ok <==> Fit(Descriptors(ims, modules, names, payloadLen, thunkBase))
    ensures bytes == Words(Descriptors(ims, modules, names, payloadLen, thunkBase))
  {
    hide Words, Flat, Modules, Of, Offset, Le4, Descriptors;
    ok, bytes := true, [];
    NothingYet();
    NoDescriptors(ims, names, payloadLen, thunkBase);
    assert modules[..0] == [];
    for g := 0 to |modules|
      invariant ok <==> Fit(Descriptors(ims, modules[..g], names, payloadLen, thunkBase))
      invariant bytes == Words(Descriptors(ims, modules[..g], names, payloadLen, thunkBase))
    {
      var m := modules[g];
      assert m in modules;
      DescriptorPush(ims, modules, names, payloadLen, thunkBase, g);
      ok := ok && moduleRva[m] < LIMIT && thunks[m] < LIMIT && |symbols[m]| < LIMIT;
      bytes := bytes + (Le4(moduleRva[m]) + Le4(thunks[m]) + Le4(|symbols[m]|));
    }
    assert modules[..|modules|] == modules;
  }

  lemma {:induction false} NoDescriptors(ims: seq<Import>, names: seq<Name>, payloadLen: nat, thunkBase: nat)
    ensures Descriptors(ims, [], names, payloadLen, thunkBase) == []
  {}

  lemma {:induction false} DescriptorPush(ims: seq<Import>, ms: seq<Name>, names: seq<Name>, payloadLen: nat, thunkBase: nat, g: nat)
    requires g < |ms| <= |names|
    ensures Words(Descriptors(ims, ms[..g + 1], names, payloadLen, thunkBase))
         == Words(Descriptors(ims, ms[..g], names, payloadLen, thunkBase))
            + (Le4(payloadLen + Offset(names, g)) + Le4(thunkBase + 8 * Start(ims, ms, g)) + Le4(|Of(ims, ms[g])|))
    ensures Fit(Descriptors(ims, ms[..g + 1], names, payloadLen, thunkBase))
       <==> Fit(Descriptors(ims, ms[..g], names, payloadLen, thunkBase)) && payloadLen + Offset(names, g) < LIMIT
            && thunkBase + 8 * Start(ims, ms, g) < LIMIT && |Of(ims, ms[g])| < LIMIT
  {
    hide Words, Le4, Offset, Flat, Of;
    var before := Descriptors(ims, ms[..g], names, payloadLen, thunkBase);
    var a, b, c := payloadLen + Offset(names, g), thunkBase + 8 * Start(ims, ms, g), |Of(ims, ms[g])|;
    assert ms[..g + 1][..g] == ms[..g];
    var after := before + [a, b, c];
    assert after == before + [a] + [b] + [c];
    assert after == Descriptors(ims, ms[..g + 1], names, payloadLen, thunkBase);
    assert after[..|before|] == before && after[|before|] == a && after[|before| + 1] == b && after[|before| + 2] == c;
    assert forall k :: 0 <= k < |before| ==> after[k] == before[k];
    WordsPush(before, a);
    WordsPush(before + [a], b);
    WordsPush(before + [a] + [b], c);
  }

  lemma {:induction false} OffsetsJoin(ms: seq<Name>, ns: seq<Name>)
    ensures Strings(ms + ns) == Strings(ms) + Strings(ns)
    ensures forall g :: 0 <= g < |ms| ==> Offset(ms + ns, g) == Offset(ms, g)
    ensures forall k :: 0 <= k < |ns| ==> Offset(ms + ns, |ms| + k) == |Strings(ms)| + Offset(ns, k)
  {
    hide Strings;
    StringsAppend(ms, ns);
    forall g | 0 <= g < |ms|
      ensures Offset(ms + ns, g) == Offset(ms, g)
    {
      assert (ms + ns)[..g] == ms[..g];
    }
    forall k | 0 <= k < |ns|
      ensures Offset(ms + ns, |ms| + k) == |Strings(ms)| + Offset(ns, k)
    {
      assert (ms + ns)[..|ms| + k] == ms + ns[..k];
      StringsAppend(ms, ns[..k]);
    }
  }

  lemma {:induction false} ThunksAgree(fs: seq<Import>, ms: seq<Name>, payloadLen: nat, iatBase: nat)
    ensures ThunkPairs(fs, Symbols(fs), 0, payloadLen + |Strings(ms)|, iatBase)
         == ThunkPairs(fs, ms + Symbols(fs), |ms|, payloadLen, iatBase)
  {
    hide Strings, Offset, SlotOf;
    OffsetsJoin(ms, Symbols(fs));
  }

  /** `build_imports`. */
  method BuildImports(payloadLen: nat, ims: seq<Import>) returns (r: Table)
    ensures r.Raised? <==> !ImportsPack(payloadLen, ims)
    ensures r.Table? ==> r == Table(ImportBlob(payloadLen, ims), Layout(payloadLen, ims).descBase, |Layout(payloadLen, ims).ms|)
  {
    hide Words, Pairs, Unnamed, Flat, Modules, Of, Offset, SlotOf, Strings, Descriptors, ThunkPairs,
         Occurs, ThunkStarts, SymbolRvas, PairsFit, Fit, Ascii;
    ModulesFirstSeen(ims, 0);
    var modules, symbols := GroupImports(ims);
    ghost var p := Layout(payloadLen, ims);
    var modulesOk, moduleBytes, moduleRva := ModuleStrings(payloadLen, modules);
    var symbolsOk, symbolBytes, symbolRva := SymbolStrings(ims, payloadLen + |moduleBytes|, modules, symbols);
    NamesJoin(modules, Symbols(p.fs));
    var strings := moduleBytes + symbolBytes;
    OffsetsJoin(modules, Symbols(p.fs));
    var thunkBase := payloadLen + |strings|;
    var thunks, iatBase := PlaceThunks(ims, thunkBase, modules, symbols);
    var unnamed := CountAllocated(ims, modules, symbols);
    var descBase := iatBase + 4 * unnamed;
    var thunksOk, thunkBytes :=
      PackThunks(ims, modules, symbols, symbolRva, iatBase, Symbols(p.fs), payloadLen + |moduleBytes|);
    ThunksAgree(p.fs, modules, payloadLen, iatBase);
    var zeroBytes: seq<Byte> := seq(4 * unnamed, _ => 0);
    ZeroWords(unnamed);
    var descsOk, descBytes :=
      PackDescriptors(ims, modules, symbols, moduleRva, thunks, p.names, payloadLen, thunkBase);
    if !modulesOk || !symbolsOk || !thunksOk || !descsOk {
      return Raised;
    }
    var blob := strings + thunkBytes + zeroBytes + descBytes;
    ghost var tw := Pairs(ThunkPairs(p.fs, p.names, |p.ms|, payloadLen, p.iatBase));
    ghost var dw := Descriptors(ims, p.ms, p.names, payloadLen, p.thunkBase);
    WordsAppend(tw + Zeros(unnamed), dw);
    WordsAppend(tw, Zeros(unnamed));
    assert blob == strings + (thunkBytes + zeroBytes + descBytes);
    return Table(blob, descBase, |modules|);
  }

  lemma {:induction false} NamesJoin(a: seq<Name>, b: seq<Name>)
    ensures AllAscii(a + b) <==> AllAscii(a) && AllAscii(b)
  {
    hide Ascii;
    assert forall k :: 0 <= k < |b| ==> (a + b)[|a| + k] == b[k];
    assert forall k :: 0 <= k < |a| ==> (a + b)[k] == a[k];
  }

  lemma {:induction false} ZeroWords(n: nat)
    ensures Words(Zeros(n)) == seq(4 * n, _ => 0)
  {
    if n > 0 {
      ZeroWords(n - 1);
      assert Zeros(n)[..n - 1] == Zeros(n - 1);
      assert Le4(0) == [0, 0, 0, 0];
    }
  }
}
