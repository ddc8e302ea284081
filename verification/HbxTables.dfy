/** The import and export tables the image builder appends to a payload: their layout
  * as functions, and what a reader of the finished image finds in them. */
module HbxTables {
  import opened HbxFormat

  // ------------------------------------------------------------------- exports

  datatype Export = Export(name: Name, rva: nat)

  function ExportNames(es: seq<Export>): (ns: seq<Name>)
    ensures |ns| == |es|
  {
    seq(|es|, i requires 0 <= i < |es| => es[i].name)
  }

  function ExportPairs(payloadLen: nat, es: seq<Export>): (ps: seq<Pair>)
    ensures |ps| == |es|
  {
    seq(|es|, i requires 0 <= i < |es| => Pair(payloadLen + Offset(ExportNames(es), i), es[i].rva))
  }

  function ExportAt(payloadLen: nat, es: seq<Export>): nat { payloadLen + |Strings(ExportNames(es))| }

  function ExportBlob(payloadLen: nat, es: seq<Export>): seq<Byte> {
    Strings(ExportNames(es)) + Words([|es|] + Pairs(ExportPairs(payloadLen, es)))
  }

  datatype Fault = NoCount | DoesNotFit | NamePast(i: nat) | EmptyName(i: nat) | NotAscii(i: nat)

  datatype Decoded = Ok(exports: seq<Export>) | Err(fault: Fault)

  predicate Ascii(n: Name) { forall i :: 0 <= i < |n| ==> n[i] < 128 }

  /** The entry loop: `n` entries of the table whose first entry is at `base`. */
  function DecodeEntries(b: seq<Byte>, base: nat, n: nat): Decoded
    requires base + 8 * n <= |b|
  {
    if n == 0 then Ok([])
    else
      var d := DecodeEntries(b, base, n - 1);
      var i := n - 1;
      var nameRva, rva := Dword(b, base + 8 * i), Dword(b, base + 8 * i + 4);
      if d.Err? then d
      else if nameRva >= |b| then Err(NamePast(i))
      else
        var raw := RawName(b, nameRva);
        if raw == [] then Err(EmptyName(i))
        else if !Ascii(raw) then Err(NotAscii(i))
        else Ok(d.exports + [Export(raw, rva)])
  }

  /** A table whose count is at `at`. */
  function DecodeTable(b: seq<Byte>, at: nat): Decoded {
    if at + 4 > |b| then Err(NoCount)
    else if at + 4 + 8 * Dword(b, at) > |b| then Err(DoesNotFit)
    else DecodeEntries(b, at + 4, Dword(b, at))
  }

  /** The name that starts at `at`: up to the first NUL, or, when none follows, everything but
    * the last byte. */
  ghost predicate NameIs(b: seq<Byte>, at: nat, n: Name) {
    && at + |n| < |b| && b[at..at + |n|] == n && 0 !in n
    && (b[at + |n|] == 0 || (at + |n| == |b| - 1 && 0 !in b[at..]))
  }

  lemma {:induction false} RawNameNames(b: seq<Byte>, at: nat)
    requires at < |b|
    ensures NameIs(b, at, RawName(b, at))
  {
    var z := NulAfter(b, at);
    var n := RawName(b, at);
    assert forall i :: 0 <= i < |n| ==> n[i] == b[at + i];
    assert z < 0 ==> forall i :: 0 <= i < |b[at..]| ==> b[at..][i] == b[at + i];
  }

  /** What is wrong with entry `i` of a table, if anything. */
  ghost predicate EntryFails(b: seq<Byte>, base: nat, i: nat, f: Fault)
    requires base + 8 * i + 8 <= |b|
  {
    var name := Dword(b, base + 8 * i);
    match f
    case NamePast(k) => k == i && name >= |b|
    case EmptyName(k) => k == i && NameIs(b, name, [])
    case NotAscii(k) => k == i && exists n :: NameIs(b, name, n) && n != [] && !Ascii(n)
    case _ => false
  }

  ghost predicate EntryIs(b: seq<Byte>, base: nat, i: nat, e: Export)
    requires base + 8 * i + 8 <= |b|
  {
    NameIs(b, Dword(b, base + 8 * i), e.name) && e.name != [] && Ascii(e.name) && e.rva == Dword(b, base + 8 * i + 4)
  }

  ghost predicate EntriesAre(b: seq<Byte>, base: nat, es: seq<Export>)
    requires base + 8 * |es| <= |b|
  {
    forall i :: 0 <= i < |es| ==> EntryIs(b, base, i, es[i])
  }

  /** The entries in order, or the fault of the first bad one. */
  ghost predicate EntriesSay(b: seq<Byte>, base: nat, n: nat, d: Decoded)
    requires base + 8 * n <= |b|
  {
    match d
    case Ok(es) => |es| == n && EntriesAre(b, base, es)
    case Err(f) => exists i, es :: 0 <= i < n && |es| == i && EntriesAre(b, base, es) && EntryFails(b, base, i, f)
  }

  lemma {:induction false} EntriesExact(b: seq<Byte>, base: nat, n: nat)
    requires base + 8 * n <= |b|
    ensures EntriesSay(b, base, n, DecodeEntries(b, base, n))
  {
    hide Dword, RawName, NameIs, Ascii;
    if n > 0 {
      var i := n - 1;
      EntriesExact(b, base, i);
      var d := DecodeEntries(b, base, i);
      var name := Dword(b, base + 8 * i);
      if name < |b| {
        RawNameNames(b, name);
      }
      if d.Ok? {
        assert |d.exports| == i && EntriesAre(b, base, d.exports);
        var r := DecodeEntries(b, base, n);
        if r.Err? {
          assert EntryFails(b, base, i, r.fault);
        }
      }
    }
  }

  /** Any bytes at all: the table is refused exactly when its count is missing, when it does
    * not fit, or when some entry's name starts past the end, is empty or is not ASCII; the
    * fault is the first there is, and otherwise every entry comes out in order. */
  lemma {:induction false} DecodeExact(b: seq<Byte>, at: nat)
    ensures var d := DecodeTable(b, at);
      && (d == Err(NoCount) <==> at + 4 > |b|)
      && (d == Err(DoesNotFit) <==> at + 4 <= |b| && at + 4 + 8 * Dword(b, at) > |b|)
      && (at + 4 <= |b| && at + 4 + 8 * Dword(b, at) <= |b| ==> EntriesSay(b, at + 4, Dword(b, at), d))
  {
    hide Dword, DecodeEntries;
    if at + 4 <= |b| && at + 4 + 8 * Dword(b, at) <= |b| {
      EntriesExact(b, at + 4, Dword(b, at));
    }
  }

  predicate PairsFit(ps: seq<Pair>) {
    forall k :: 0 <= k < |ps| ==> ps[k].first < LIMIT && ps[k].second < LIMIT
  }

  predicate AllAscii(ns: seq<Name>) {
    forall k :: 0 <= k < |ns| ==> Ascii(ns[k])
  }

  /** The builder raises unless every name encodes and every number packs in 32 bits. */
  predicate ExportsPack(payloadLen: nat, es: seq<Export>) {
    AllAscii(ExportNames(es)) && |es| < LIMIT && PairsFit(ExportPairs(payloadLen, es))
  }

  predicate GoodExport(e: Export) { Proper(e.name) && e.name != [] }

  lemma {:induction false} ExportsFit(payload: seq<Byte>, es: seq<Export>)
    ensures var image := payload + ExportBlob(|payload|, es);
            var at := ExportAt(|payload|, es);
            var ws := [|es|] + Pairs(ExportPairs(|payload|, es));
            && |image| == at + 4 * |ws| == at + 4 + 8 * |es|
            && image[at..at + 4 * |ws|] == Words(ws)
            && image[|payload|..at] == Strings(ExportNames(es))
  {
    hide Strings, Words, Pairs, Offset;
  }

  lemma {:induction false} EntriesReadBack(image: seq<Byte>, payloadLen: nat, es: seq<Export>, n: nat)
    requires n <= |es| && ExportsPack(payloadLen, es)
    requires forall i :: 0 <= i < |es| ==> GoodExport(es[i])
    requires var at := ExportAt(payloadLen, es);
             var ws := [|es|] + Pairs(ExportPairs(payloadLen, es));
             && payloadLen <= at && |image| == at + 4 * |ws| && image[at..at + 4 * |ws|] == Words(ws)
             && image[payloadLen..at] == Strings(ExportNames(es))
    ensures DecodeEntries(image, ExportAt(payloadLen, es) + 4, n) == Ok(es[..n])
  {
    hide Strings, Words, Pairs, Offset, Dword, RawName;
    if n > 0 {
      var i, at := n - 1, ExportAt(payloadLen, es);
      var ws := [|es|] + Pairs(ExportPairs(payloadLen, es));
      EntriesReadBack(image, payloadLen, es, i);
      NameReads(image, payloadLen, ExportNames(es), i);
      PairAt(ExportPairs(payloadLen, es), i);
      assert ws[1 + 2 * i] == payloadLen + Offset(ExportNames(es), i) && ws[2 + 2 * i] == es[i].rva;
      assert GoodExport(es[i]) && ExportNames(es)[i] == es[i].name;
      assert ExportPairs(payloadLen, es)[i].first < LIMIT;
      WordReads(image, at, ws, 1 + 2 * i);
      WordReads(image, at, ws, 2 + 2 * i);
      assert es[..n] == es[..i] + [es[i]];
    }
  }

  /** The export table reads back as the exports it was built from. */
  lemma {:induction false} ExportsReadBack(payload: seq<Byte>, es: seq<Export>)
    requires forall i :: 0 <= i < |es| ==> GoodExport(es[i])
    requires ExportsPack(|payload|, es)
    ensures DecodeTable(payload + ExportBlob(|payload|, es), ExportAt(|payload|, es)) == Ok(es)
  {
    hide Strings, Words, Pairs, Offset, Dword, ExportBlob, DecodeEntries;
    var image, at := payload + ExportBlob(|payload|, es), ExportAt(|payload|, es);
    var ws := [|es|] + Pairs(ExportPairs(|payload|, es));
    ExportsFit(payload, es);
    WordReads(image, at, ws, 0);
    EntriesReadBack(image, |payload|, es, |es|);
    assert es[..|es|] == es;
  }

  // ------------------------------------------------------------------- imports

  datatype Slot = At(rva: nat) | Allocate

  datatype Import = Import(mod: Name, symbol: Name, slot: Slot)

  /** The modules in the order they are first seen. */
  function Modules(ims: seq<Import>): seq<Name> {
    if ims == [] then []
    else
      var ms, m := Modules(ims[..|ims| - 1]), ims[|ims| - 1].mod;
      if m in ms then ms else ms + [m]
  }

  /** The imports from one module, in order. */
  function Of(ims: seq<Import>, m: Name): seq<Import> {
    if ims == [] then []
    else
      var last := ims[|ims| - 1];
      Of(ims[..|ims| - 1], m) + (if last.mod == m then [last] else [])
  }

  /** The imports of the given modules, module after module. */
  function Flat(ims: seq<Import>, ms: seq<Name>): seq<Import> {
    if ms == [] then [] else Flat(ims, ms[..|ms| - 1]) + Of(ims, ms[|ms| - 1])
  }

  function Symbols(fs: seq<Import>): (ns: seq<Name>)
    ensures |ns| == |fs|
  {
    seq(|fs|, i requires 0 <= i < |fs| => fs[i].symbol)
  }

  /** How many slots have to be allocated. */
  function Unnamed(fs: seq<Import>): nat {
    if fs == [] then 0 else Unnamed(fs[..|fs| - 1]) + (if fs[|fs| - 1].slot == Allocate then 1 else 0)
  }

  function SlotOf(fs: seq<Import>, iatBase: nat, k: nat): nat
    requires k < |fs|
  {
    match fs[k].slot
    case At(rva) => rva
    case Allocate => iatBase + 4 * Unnamed(fs[..k])
  }

  function ThunkPairs(fs: seq<Import>, names: seq<Name>, skip: nat, payloadLen: nat, iatBase: nat): (ps: seq<Pair>)
    requires skip + |fs| == |names|
    ensures |ps| == |fs|
  {
    seq(|fs|, k requires 0 <= k < |fs| => Pair(payloadLen + Offset(names, skip + k), SlotOf(fs, iatBase, k)))
  }

  /** The descriptors of the first modules: name, first thunk, number of thunks. */
  function Descriptors(ims: seq<Import>, ms: seq<Name>, names: seq<Name>, payloadLen: nat, thunkBase: nat): (ws: seq<nat>)
    requires |ms| <= |names|
    ensures |ws| == 3 * |ms|
  {
    if ms == [] then []
    else
      var before, m := ms[..|ms| - 1], ms[|ms| - 1];
      Descriptors(ims, before, names, payloadLen, thunkBase)
      + [payloadLen + Offset(names, |before|), thunkBase + 8 * |Flat(ims, before)|, |Of(ims, m)|]
  }

  datatype Plan = Plan(ms: seq<Name>, fs: seq<Import>, names: seq<Name>, thunkBase: nat, iatBase: nat, descBase: nat)

  /** Where everything goes: strings, thunks, allocated slots, descriptors. */
  function Layout(payloadLen: nat, ims: seq<Import>): (p: Plan)
    ensures |p.names| == |p.ms| + |p.fs|
  {
    var ms := Modules(ims);
    var fs := Flat(ims, ms);
    var names := ms + Symbols(fs);
    var thunkBase := payloadLen + |Strings(names)|;
    var iatBase := thunkBase + 8 * |fs|;
    Plan(ms, fs, names, thunkBase, iatBase, iatBase + 4 * Unnamed(fs))
  }

  function Zeros(n: nat): (ws: seq<nat>)
    ensures |ws| == n
  {
    seq(n, _ => 0)
  }

  function ImportWords(payloadLen: nat, ims: seq<Import>): seq<nat> {
    var p := Layout(payloadLen, ims);
    Pairs(ThunkPairs(p.fs, p.names, |p.ms|, payloadLen, p.iatBase))
    + Zeros(Unnamed(p.fs))
    + Descriptors(ims, p.ms, p.names, payloadLen, p.thunkBase)
  }

  function ImportBlob(payloadLen: nat, ims: seq<Import>): seq<Byte> {
    Strings(Layout(payloadLen, ims).names) + Words(ImportWords(payloadLen, ims))
  }

  // ------------------------------------------------------------ reading imports

  datatype Bound = Bound(symbol: Name, slot: nat)

  datatype Group = Group(mod: Name, bound: seq<Bound>)

  function DwordAt(b: seq<Byte>, at: nat): nat { if at + 4 <= |b| then Dword(b, at) else 0 }

  function NameAt(b: seq<Byte>, at: nat): Name { if at < |b| then RawName(b, at) else [] }

  /** `n` thunks from `at`: each names a symbol and the slot its address goes to. */
  function ReadThunks(b: seq<Byte>, at: nat, n: nat): seq<Bound> {
    if n == 0 then []
    else
      var t := at + 8 * (n - 1);
      ReadThunks(b, at, n - 1) + [Bound(NameAt(b, DwordAt(b, t)), DwordAt(b, t + 4))]
  }

  /** `n` descriptors from `at`. */
  function ReadImports(b: seq<Byte>, at: nat, n: nat): seq<Group> {
    if n == 0 then []
    else
      var d := at + 12 * (n - 1);
      ReadImports(b, at, n - 1)
      + [Group(NameAt(b, DwordAt(b, d)), ReadThunks(b, DwordAt(b, d + 4), DwordAt(b, d + 8)))]
  }

  /** The imports `from..to` of the flat list, each with the slot it was given. */
  function BoundSlice(fs: seq<Import>, iatBase: nat, from: nat, to: nat): seq<Bound>
    requires from <= to <= |fs|
  {
    seq(to - from, j requires 0 <= j < to - from => Bound(fs[from + j].symbol, SlotOf(fs, iatBase, from + j)))
  }

  lemma {:induction false} FlatPrefix(ims: seq<Import>, ms: seq<Name>, g: nat)
    requires g <= |ms|
    ensures Flat(ims, ms[..g]) <= Flat(ims, ms)
    decreases |ms|
  {
    if g < |ms| {
      var short := ms[..|ms| - 1];
      assert short[..g] == ms[..g];
      FlatPrefix(ims, short, g);
    } else {
      assert ms[..g] == ms;
    }
  }

  function Start(ims: seq<Import>, ms: seq<Name>, g: nat): nat
    requires g <= |ms|
  {
    |Flat(ims, ms[..g])|
  }

  lemma {:induction false} StartStep(ims: seq<Import>, ms: seq<Name>, g: nat)
    requires g < |ms|
    ensures Start(ims, ms, g + 1) == Start(ims, ms, g) + |Of(ims, ms[g])| <= |Flat(ims, ms)|
  {
    assert ms[..g + 1][..g] == ms[..g];
    FlatPrefix(ims, ms, g + 1);
  }

  /** The table the importer asked for: modules in first-seen order, each with its symbols in
    * order and the slot of each. */
  function Wanted(ims: seq<Import>, fs: seq<Import>, ms: seq<Name>, iatBase: nat, n: nat): seq<Group>
    requires n <= |ms| && fs == Flat(ims, ms)
  {
    if n == 0 then []
    else
      StartStep(ims, ms, n - 1);
      Wanted(ims, fs, ms, iatBase, n - 1)
      + [Group(ms[n - 1], BoundSlice(fs, iatBase, Start(ims, ms, n - 1), Start(ims, ms, n)))]
  }

  lemma {:induction false} DescriptorAt(ims: seq<Import>, ms: seq<Name>, names: seq<Name>, payloadLen: nat, thunkBase: nat, g: nat)
    requires g < |ms| <= |names|
    ensures var ws := Descriptors(ims, ms, names, payloadLen, thunkBase);
            && ws[3 * g] == payloadLen + Offset(names, g)
            && ws[3 * g + 1] == thunkBase + 8 * Start(ims, ms, g)
            && ws[3 * g + 2] == |Of(ims, ms[g])|
    decreases |ms|
  {
    hide Offset, Flat, Of;
    var n := |ms| - 1;
    if g < n {
      DescriptorAt(ims, ms[..n], names, payloadLen, thunkBase, g);
      assert ms[..n][..g] == ms[..g];
    }
  }

  // -------------------------------------------------------- grouping by module

  predicate Distinct(ms: seq<Name>) {
    forall g, h :: 0 <= g < h < |ms| ==> ms[g] != ms[h]
  }

  ghost predicate Occurs(m: Name, ims: seq<Import>) {
    exists k :: 0 <= k < |ims| && ims[k].mod == m
  }

  lemma {:induction false} OccursStep(m: Name, ims: seq<Import>)
    requires ims != []
    ensures Occurs(m, ims) <==> Occurs(m, ims[..|ims| - 1]) || ims[|ims| - 1].mod == m
  {
    var n := |ims| - 1;
    if Occurs(m, ims[..n]) {
      var k :| 0 <= k < n && ims[..n][k].mod == m;
      assert ims[k].mod == m;
    }
    if Occurs(m, ims) {
      var k :| 0 <= k < |ims| && ims[k].mod == m;
      assert k < n ==> ims[..n][k].mod == m;
    }
  }

  lemma {:induction false} ModulesOccur(ims: seq<Import>)
    ensures Distinct(Modules(ims))
    ensures forall m :: m in Modules(ims) <==> Occurs(m, ims)
  {
    hide Occurs;
    if ims == [] {
      NoneOccurs();
    } else {
      ModulesOccur(ims[..|ims| - 1]);
      forall m
        ensures m in Modules(ims) <==> Occurs(m, ims)
      {
        OccursStep(m, ims);
      }
    }
  }

  lemma {:induction false} NoneOccurs()
    ensures forall m :: !Occurs(m, [])
  {}

  lemma {:induction false} ModulesPrefix(ims: seq<Import>, i: nat)
    requires i <= |ims|
    ensures Modules(ims[..i]) <= Modules(ims)
    decreases |ims|
  {
    if i < |ims| {
      var short := ims[..|ims| - 1];
      ModulesPrefix(short, i);
      assert short[..i] == ims[..i];
    } else {
      assert ims[..i] == ims;
    }
  }

  /** Each module once, exactly those that occur; and the modules of any first part of the
    * list are a first part of the modules, so they stand in first-seen order. */
  lemma {:induction false} ModulesFirstSeen(ims: seq<Import>, i: nat)
    requires i <= |ims|
    ensures Distinct(Modules(ims))
    ensures forall m :: m in Modules(ims) <==> Occurs(m, ims)
    ensures Modules(ims[..i]) <= Modules(ims)
  {
    hide Occurs, Modules;
    ModulesOccur(ims);
    ModulesPrefix(ims, i);
  }

  /** A module's group holds exactly its imports, each at the place its predecessors leave it. */
  lemma {:induction false} OfKeepsOrder(ims: seq<Import>, m: Name, i: nat)
    requires i < |ims|
    ensures forall x :: x in Of(ims, m) ==> x in ims && x.mod == m
    ensures |Of(ims[..i], m)| <= |Of(ims, m)|
    ensures ims[i].mod == m ==> |Of(ims[..i], m)| < |Of(ims, m)| && Of(ims, m)[|Of(ims[..i], m)|] == ims[i]
    decreases |ims|
  {
    var n := |ims| - 1;
    if n > 0 {
      OfKeepsOrder(ims[..n], m, if i < n then i else n - 1);
      if i < n {
        assert ims[..n][..i] == ims[..i];
      }
    } else {
      assert ims[..n] == [];
    }
  }

  lemma {:induction false} OfCounts(ims: seq<Import>, m: Name, x: Import)
    ensures multiset(Of(ims, m))[x] == if x.mod == m then multiset(ims)[x] else 0
  {
    if ims != [] {
      var n := |ims| - 1;
      OfCounts(ims[..n], m, x);
      assert ims == ims[..n] + [ims[n]];
    }
  }

  lemma {:induction false} FlatCounts(ims: seq<Import>, ms: seq<Name>, x: Import)
    requires Distinct(ms)
    ensures multiset(Flat(ims, ms))[x] == if x.mod in ms then multiset(ims)[x] else 0
  {
    if ms != [] {
      var n := |ms| - 1;
      FlatCounts(ims, ms[..n], x);
      OfCounts(ims, ms[n], x);
      assert ms == ms[..n] + [ms[n]];
    }
  }

  /** Grouping loses nothing and repeats nothing. */
  lemma {:induction false} GroupingConserves(ims: seq<Import>)
    ensures multiset(Flat(ims, Modules(ims))) == multiset(ims)
    ensures |Flat(ims, Modules(ims))| == |ims|
  {
    ModulesFirstSeen(ims, 0);
    var fs := Flat(ims, Modules(ims));
    forall x
      ensures multiset(fs)[x] == multiset(ims)[x]
    {
      FlatCounts(ims, Modules(ims), x);
      if x in multiset(ims) {
        var k :| 0 <= k < |ims| && ims[k] == x;
        assert Occurs(x.mod, ims);
      }
    }
    assert multiset(fs) == multiset(ims);
    assert |multiset(fs)| == |fs| && |multiset(ims)| == |ims|;
  }

  // ---------------------------------------------------------------------- slots

  lemma {:induction false} UnnamedGrows(fs: seq<Import>, j: nat, k: nat)
    requires j <= k <= |fs|
    ensures Unnamed(fs[..j]) <= Unnamed(fs[..k])
    ensures j < k && fs[j].slot == Allocate ==> Unnamed(fs[..j]) < Unnamed(fs[..k])
    decreases k
  {
    if j < k {
      var short := fs[..k - 1];
      assert fs[..k][..k - 1] == short;
      UnnamedGrows(fs, j, k - 1);
    }
  }

  /** Every named slot is kept, and every allocated one lies between the thunks and the
    * descriptors, a dword wide. */
  lemma {:induction false} SlotPlaced(fs: seq<Import>, iatBase: nat, k: nat)
    requires k < |fs|
    ensures fs[k].slot.At? ==> SlotOf(fs, iatBase, k) == fs[k].slot.rva
    ensures fs[k].slot == Allocate ==> iatBase <= SlotOf(fs, iatBase, k)
                                       && SlotOf(fs, iatBase, k) + 4 <= iatBase + 4 * Unnamed(fs)
  {
    hide Unnamed;
    UnnamedGrows(fs, k, |fs|);
    assert fs[..|fs|] == fs;
  }

  /** No two allocated slots overlap. */
  lemma {:induction false} SlotsApart(fs: seq<Import>, iatBase: nat, j: nat, k: nat)
    requires j < k < |fs|
    ensures fs[j].slot == Allocate && fs[k].slot == Allocate ==>
              SlotOf(fs, iatBase, j) + 4 <= SlotOf(fs, iatBase, k)
  {
    hide Unnamed;
    UnnamedGrows(fs, j, k);
  }

  // ------------------------------------------------------------------ read back

  /** Names that can be told apart again from what follows them. */
  predicate GoodImport(x: Import) { Proper(x.mod) && Proper(x.symbol) }

  ghost predicate GoodImports(ims: seq<Import>) {
    forall i :: 0 <= i < |ims| ==> GoodImport(ims[i])
  }

  predicate Fit(ws: seq<nat>) {
    forall k :: 0 <= k < |ws| ==> ws[k] < LIMIT
  }

  /** The builder raises unless every name encodes and every number packs in 32 bits. */
  predicate ImportsPack(payloadLen: nat, ims: seq<Import>) {
    var p := Layout(payloadLen, ims);
    && AllAscii(p.names)
    && PairsFit(ThunkPairs(p.fs, p.names, |p.ms|, payloadLen, p.iatBase))
    && Fit(Descriptors(ims, p.ms, p.names, payloadLen, p.thunkBase))
  }

  /** `image` carries the import table of `ims` from `payloadLen` on. */
  ghost predicate Carries(image: seq<Byte>, payloadLen: nat, ims: seq<Import>) {
    var p := Layout(payloadLen, ims);
    && ImportsPack(payloadLen, ims)
    && p.thunkBase + 4 * |ImportWords(payloadLen, ims)| <= |image|
    && payloadLen <= p.thunkBase
    && image[payloadLen..p.thunkBase] == Strings(p.names)
    && image[p.thunkBase..p.thunkBase + 4 * |ImportWords(payloadLen, ims)|] == Words(ImportWords(payloadLen, ims))
  }

  lemma {:induction false} NamesProper(ims: seq<Import>, payloadLen: nat)
    requires GoodImports(ims)
    ensures var p := Layout(payloadLen, ims);
            && (forall k :: 0 <= k < |p.names| ==> Proper(p.names[k]))
            && (forall k :: 0 <= k < |p.fs| ==> GoodImport(p.fs[k]))
  {
    hide Strings, Unnamed, Flat, Modules;
    var p := Layout(payloadLen, ims);
    ModulesFirstSeen(ims, 0);
    GroupingConserves(ims);
    forall k | 0 <= k < |p.fs|
      ensures GoodImport(p.fs[k])
    {
      assert p.fs[k] in multiset(p.fs);
      assert p.fs[k] in ims;
    }
    forall k | 0 <= k < |p.names|
      ensures Proper(p.names[k])
    {
      if k < |p.ms| {
        assert p.names[k] == p.ms[k] && p.ms[k] in p.ms;
        assert Occurs(p.ms[k], ims);
      } else {
        assert p.names[k] == p.fs[k - |p.ms|].symbol;
      }
    }
  }

  lemma {:induction false} ThunkReads(image: seq<Byte>, payloadLen: nat, ims: seq<Import>, k: nat)
    requires GoodImports(ims) && Carries(image, payloadLen, ims)
    requires k < |Layout(payloadLen, ims).fs|
    ensures var p := Layout(payloadLen, ims);
            && NameAt(image, DwordAt(image, p.thunkBase + 8 * k)) == p.fs[k].symbol
            && DwordAt(image, p.thunkBase + 8 * k + 4) == SlotOf(p.fs, p.iatBase, k)
  {
    hide Strings, Words, Pairs, Offset, Dword, RawName, Flat, Modules, Unnamed, SlotOf, Descriptors, Proper;
    var p := Layout(payloadLen, ims);
    var ps := ThunkPairs(p.fs, p.names, |p.ms|, payloadLen, p.iatBase);
    var ws := ImportWords(payloadLen, ims);
    NamesProper(ims, payloadLen);
    PairAt(ps, k);
    assert ws[2 * k] == ps[k].first && ws[2 * k + 1] == ps[k].second;
    NameReads(image, payloadLen, p.names, |p.ms| + k);
    WordReads(image, p.thunkBase, ws, 2 * k);
    WordReads(image, p.thunkBase, ws, 2 * k + 1);
  }

  lemma {:induction false} ThunksRead(image: seq<Byte>, payloadLen: nat, ims: seq<Import>, from: nat, n: nat)
    requires GoodImports(ims) && Carries(image, payloadLen, ims)
    requires from + n <= |Layout(payloadLen, ims).fs|
    ensures var p := Layout(payloadLen, ims);
            ReadThunks(image, p.thunkBase + 8 * from, n) == BoundSlice(p.fs, p.iatBase, from, from + n)
  {
    hide GoodImports, Carries, Layout, SlotOf, NameAt, DwordAt, BoundSlice;
    if n == 0 {
      NoneBound(Layout(payloadLen, ims).fs, Layout(payloadLen, ims).iatBase, from);
    }
    if n > 0 {
      var p := Layout(payloadLen, ims);
      ThunksRead(image, payloadLen, ims, from, n - 1);
      ThunkReads(image, payloadLen, ims, from + n - 1);
      BoundPush(p.fs, p.iatBase, from, from + n - 1);
      assert p.thunkBase + 8 * (from + n - 1) == p.thunkBase + 8 * from + 8 * (n - 1);
    }
  }

  lemma {:induction false} NoneBound(fs: seq<Import>, iatBase: nat, from: nat)
    requires from <= |fs|
    ensures BoundSlice(fs, iatBase, from, from) == []
  {}

  lemma {:induction false} BoundPush(fs: seq<Import>, iatBase: nat, from: nat, to: nat)
    requires from <= to < |fs|
    ensures BoundSlice(fs, iatBase, from, to + 1)
         == BoundSlice(fs, iatBase, from, to) + [Bound(fs[to].symbol, SlotOf(fs, iatBase, to))]
  {
    hide SlotOf;
  }

  lemma {:induction false} DescriptorReads(image: seq<Byte>, payloadLen: nat, ims: seq<Import>, g: nat)
    requires GoodImports(ims) && Carries(image, payloadLen, ims)
    requires g < |Layout(payloadLen, ims).ms|
    ensures var p := Layout(payloadLen, ims);
            && NameAt(image, DwordAt(image, p.descBase + 12 * g)) == p.ms[g]
            && DwordAt(image, p.descBase + 12 * g + 4) == p.thunkBase + 8 * Start(ims, p.ms, g)
            && DwordAt(image, p.descBase + 12 * g + 8) == |Of(ims, p.ms[g])|
  {
    hide Strings, Words, Pairs, Offset, Dword, RawName, Flat, Modules, Unnamed, SlotOf, Descriptors, Proper, Of, Start;
    var p := Layout(payloadLen, ims);
    var ws := ImportWords(payloadLen, ims);
    var ds := Descriptors(ims, p.ms, p.names, payloadLen, p.thunkBase);
    var first := 2 * |p.fs| + Unnamed(p.fs);
    NamesProper(ims, payloadLen);
    DescriptorAt(ims, p.ms, p.names, payloadLen, p.thunkBase, g);
    StartStep(ims, p.ms, g);
    assert |ws| == first + |ds|;
    assert ws[first + 3 * g] == ds[3 * g] && ws[first + 3 * g + 1] == ds[3 * g + 1] && ws[first + 3 * g + 2] == ds[3 * g + 2];
    assert p.names[g] == p.ms[g];
    NameReads(image, payloadLen, p.names, g);
    WordReads(image, p.thunkBase, ws, first + 3 * g);
    WordReads(image, p.thunkBase, ws, first + 3 * g + 1);
    WordReads(image, p.thunkBase, ws, first + 3 * g + 2);
    assert p.thunkBase + 4 * first == p.descBase;
  }

  lemma {:induction false} GroupsRead(image: seq<Byte>, payloadLen: nat, ims: seq<Import>, n: nat)
    requires GoodImports(ims) && Carries(image, payloadLen, ims)
    requires n <= |Layout(payloadLen, ims).ms|
    ensures var p := Layout(payloadLen, ims);
            p.fs == Flat(ims, p.ms)
            && ReadImports(image, p.descBase, n) == Wanted(ims, p.fs, p.ms, p.iatBase, n)
  {
    hide GoodImports, Carries, SlotOf, NameAt, DwordAt, ReadThunks, BoundSlice, Flat, Of, Modules, Strings, Unnamed;
    if n > 0 {
      var p := Layout(payloadLen, ims);
      GroupsRead(image, payloadLen, ims, n - 1);
      DescriptorReads(image, payloadLen, ims, n - 1);
      StartStep(ims, p.ms, n - 1);
      ThunksRead(image, payloadLen, ims, Start(ims, p.ms, n - 1), |Of(ims, p.ms[n - 1])|);
    }
  }

  lemma {:induction false} ImportsFit(payload: seq<Byte>, ims: seq<Import>)
    requires ImportsPack(|payload|, ims)
    ensures Carries(payload + ImportBlob(|payload|, ims), |payload|, ims)
  {
    hide Strings, Words, ImportWords, ImportsPack;
    var p := Layout(|payload|, ims);
    var image := payload + ImportBlob(|payload|, ims);
    assert image[|payload|..p.thunkBase] == Strings(p.names);
    assert image[p.thunkBase..] == Words(ImportWords(|payload|, ims));
  }

  /** An image with the built table appended reads back as what was asked for. */
  lemma {:induction false} ImportsReadBack(payload: seq<Byte>, ims: seq<Import>)
    requires GoodImports(ims)
    requires ImportsPack(|payload|, ims)
    ensures var p := Layout(|payload|, ims);
            && p.fs == Flat(ims, p.ms)
            && ReadImports(payload + ImportBlob(|payload|, ims), p.descBase, |p.ms|)
               == Wanted(ims, p.fs, p.ms, p.iatBase, |p.ms|)
  {
    hide GoodImports, Carries, ImportBlob, Wanted, ReadImports, ImportsPack;
    ImportsFit(payload, ims);
    GroupsRead(payload + ImportBlob(|payload|, ims), |payload|, ims, |Layout(|payload|, ims).ms|);
  }

  // ------------------------------------------------------------ import by import

  /** Import `j` of module `g` in the flat list. */
  lemma {:induction false} FlatAt(ims: seq<Import>, ms: seq<Name>, g: nat, j: nat)
    requires g < |ms| && j < |Of(ims, ms[g])|
    ensures Start(ims, ms, g) + j < |Flat(ims, ms)|
    ensures Flat(ims, ms)[Start(ims, ms, g) + j] == Of(ims, ms[g])[j]
  {
    var upto := ms[..g + 1];
    assert upto[..g] == ms[..g];
    FlatPrefix(ims, ms, g + 1);
    assert Flat(ims, upto) == Flat(ims, ms[..g]) + Of(ims, ms[g]);
    assert Flat(ims, upto)[Start(ims, ms, g) + j] == Of(ims, ms[g])[j];
  }

  lemma {:induction false} WantedAt(ims: seq<Import>, fs: seq<Import>, ms: seq<Name>, iatBase: nat, n: nat, g: nat)
    requires g < n <= |ms| && fs == Flat(ims, ms)
    ensures |Wanted(ims, fs, ms, iatBase, n)| == n
    ensures Start(ims, ms, g) <= Start(ims, ms, g + 1) <= |fs|
    ensures Wanted(ims, fs, ms, iatBase, n)[g]
         == Group(ms[g], BoundSlice(fs, iatBase, Start(ims, ms, g), Start(ims, ms, g + 1)))
    decreases n
  {
    hide BoundSlice, Start, Flat;
    StartStep(ims, ms, g);
    WantedLength(ims, fs, ms, iatBase, n);
    WantedLength(ims, fs, ms, iatBase, n - 1);
    if g < n - 1 {
      WantedAt(ims, fs, ms, iatBase, n - 1, g);
    }
  }

  lemma {:induction false} WantedLength(ims: seq<Import>, fs: seq<Import>, ms: seq<Name>, iatBase: nat, n: nat)
    requires n <= |ms| && fs == Flat(ims, ms)
    ensures |Wanted(ims, fs, ms, iatBase, n)| == n
  {
    hide BoundSlice, Start, Flat;
    if n > 0 {
      WantedLength(ims, fs, ms, iatBase, n - 1);
    }
  }

  /** Where import `i` is to be found: group `g`, entry `j`. */
  ghost predicate FoundAt(groups: seq<Group>, ims: seq<Import>, i: nat, g: nat, j: nat, iatBase: nat, descBase: nat)
    requires i < |ims|
  {
    && g < |groups| && j < |groups[g].bound|
    && groups[g].mod == ims[i].mod
    && groups[g].bound[j].symbol == ims[i].symbol
    && (ims[i].slot.At? ==> groups[g].bound[j].slot == ims[i].slot.rva)
    && (ims[i].slot == Allocate ==> iatBase <= groups[g].bound[j].slot && groups[g].bound[j].slot + 4 <= descBase)
  }

  lemma {:induction false} WantedHolds(payloadLen: nat, ims: seq<Import>, i: nat, g: nat)
    requires var ms := Layout(payloadLen, ims).ms;
             i < |ims| && g < |ms| && ms[g] == ims[i].mod
    ensures var p := Layout(payloadLen, ims);
            && p.fs == Flat(ims, p.ms)
            && FoundAt(Wanted(ims, p.fs, p.ms, p.iatBase, |p.ms|), ims, i, g, |Of(ims[..i], ims[i].mod)|, p.iatBase, p.descBase)
  {
    hide Wanted, Flat, Of, Start, Modules, Strings, SlotOf, Unnamed;
    var p := Layout(payloadLen, ims);
    var j := |Of(ims[..i], ims[i].mod)|;
    OfKeepsOrder(ims, ims[i].mod, i);
    FlatAt(ims, p.ms, g, j);
    WantedAt(ims, p.fs, p.ms, p.iatBase, |p.ms|, g);
    StartStep(ims, p.ms, g);
    SlotPlaced(p.fs, p.iatBase, Start(ims, p.ms, g) + j);
  }

  lemma {:induction false} ModuleIndex(ims: seq<Import>, i: nat) returns (g: nat)
    requires i < |ims|
    ensures g < |Modules(ims)| && Modules(ims)[g] == ims[i].mod
  {
    hide Modules;
    ModulesFirstSeen(ims, 0);
    assert Occurs(ims[i].mod, ims);
    g :| 0 <= g < |Modules(ims)| && Modules(ims)[g] == ims[i].mod;
  }

  /** Every import is found in the finished image: in the group of its module, after the
    * imports of that module that came before it, with its symbol and its slot. */
  lemma {:induction false} ImportFound(payload: seq<Byte>, ims: seq<Import>, i: nat) returns (g: nat)
    requires GoodImports(ims) && i < |ims|
    requires ImportsPack(|payload|, ims)
    ensures var p := Layout(|payload|, ims);
            && g < |p.ms| && p.ms[g] == ims[i].mod
            && FoundAt(ReadImports(payload + ImportBlob(|payload|, ims), p.descBase, |p.ms|), ims, i, g,
                       |Of(ims[..i], ims[i].mod)|, p.iatBase, p.descBase)
  {
    hide GoodImports, ImportsPack, ImportBlob, ReadImports, Wanted, FoundAt, Of, Flat, Strings, Unnamed, Modules;
    g := ModuleIndex(ims, i);
    ImportsReadBack(payload, ims);
    WantedHolds(|payload|, ims, i, g);
  }
}
