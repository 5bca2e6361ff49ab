/** The C text `compile_net` emits: the line formats, the declaration
    filter, the call statements, and the whole program's layout, with the
    lemmas that state where each part lands and what it contains. */
module Emitter {
  import opened Text
  import opened Resolver

  /** The three fixed header lines of `cprog`. */
  const Header: seq<string> := ["#include <stdio.h>", "#include <math.h>", "#define max(x,y) fmax(x,y)"]

  /** `f"{name}({', '.join(cargs)});"` */
  function StatementLine(name: string, cargs: seq<string>): string
  {
    name + "(" + Join(cargs, ", ") + ");"
  }

  /** A statement opens with the kernel name and `(`, ends with `);`, has
      room for its arguments and the `, ` between them and nothing else,
      and holds argument `j` after the `j` earlier arguments, each followed
      by `, `. */
  lemma StatementArgument(name: string, cargs: seq<string>, j: nat)
    requires j < |cargs|
    ensures var o := |name| + 1 + TotalLength(cargs[..j]) + 2 * j;
      var line := StatementLine(name, cargs);
      && |line| == |name| + 1 + TotalLength(cargs) + 2 * (|cargs| - 1) + 2
      && line[..|name| + 1] == name + "("
      && o + |cargs[j]| <= |line|
      && line[o .. o + |cargs[j]|] == cargs[j]
      && (j + 1 < |cargs| ==> o + |cargs[j]| + 2 <= |line| && line[o + |cargs[j]| .. o + |cargs[j]| + 2] == ", ")
      && line[|line| - 2 ..] == ");"
  {
    var joined := Join(cargs, ", ");
    var line := StatementLine(name, cargs);
    var pre := name + "(";
    assert line == pre + joined + ");";
    JoinLength(cargs, ", ");
    assert |line| == |pre| + |joined| + 2;
    JoinAt(cargs, ", ", j);
    var o := TotalLength(cargs[..j]) + 2 * j;
    assert line[|pre| + o .. |pre| + o + |cargs[j]|] == joined[o .. o + |cargs[j]|];
    if j + 1 < |cargs| {
      assert line[|pre| + o + |cargs[j]| .. |pre| + o + |cargs[j]| + 2] == joined[o + |cargs[j]| .. o + |cargs[j]| + 2];
    }
  }

  /** `f"float {name}[{size}];"` */
  function DeclLine(e: Entry): string
  {
    "float " + e.name + "[" + NatToString(e.size) + "];"
  }

  /** `f"unsigned char {name}_data[] = \"{weight}\";"` */
  function WeightLine(name: string, payload: seq<byte>): string
  {
    "unsigned char " + name + "_data[] = \"" + Escape(payload) + "\";"
  }

  /** `f"float *{name} = (float *){name}_data;"` */
  function AliasLine(name: string): string
  {
    "float *" + name + " = (float *)" + name + "_data;"
  }

  /** The weight literal of a weight line decodes to the buffer's bytes. */
  lemma WeightLineDecodes(name: string, payload: seq<byte>)
    ensures var prefix := "unsigned char " + name + "_data[] = \"";
      var line := WeightLine(name, payload);
      && |line| == |prefix| + 4 * |payload| + 2
      && line[..|prefix|] == prefix
      && Unescape(line[|prefix| .. |line| - 2]) == Some(payload)
      && line[|line| - 2..] == "\";"
  {
    var prefix := "unsigned char " + name + "_data[] = \"";
    var e := Escape(payload);
    var line := WeightLine(name, payload);
    assert line == prefix + e + "\";";
    assert line[|prefix| .. |line| - 2] == e;
    UnescapeEscape(payload);
  }

  // ---------------------------------------------------------------------
  // Call statements
  // ---------------------------------------------------------------------

  /** Every surviving argument of every invocation of `jit` is in `bufs`. */
  ghost predicate Known(jit: seq<Invocation>, bufs: map<int, Entry>)
  {
    forall k :: 0 <= k < |jit| ==> UsesIn(Survivors(jit[k]), bufs)
  }

  /** The names `bufs` gives to the uses of `us`, in order. */
  function UseNames(us: seq<Use>, bufs: map<int, Entry>): (names: seq<string>)
    requires UsesIn(us, bufs)
    ensures |names| == |us|
  {
    seq(|us|, j requires 0 <= j < |us| => bufs[us[j].handle].name)
  }

  /** `cargs`: the names of the surviving arguments of `inv`, in order. */
  function ArgNames(inv: Invocation, bufs: map<int, Entry>): (names: seq<string>)
    requires UsesIn(Survivors(inv), bufs)
    ensures |names| == |Survivors(inv)|
  {
    UseNames(Survivors(inv), bufs)
  }

  /** One statement per invocation, in order, naming its arguments by `bufs`. */
  function CallsWith(jit: seq<Invocation>, bufs: map<int, Entry>): (calls: seq<string>)
    requires Known(jit, bufs)
    ensures |calls| == |jit|
    decreases |jit|
  {
    if jit == [] then []
    else
      var n := |jit| - 1;
      assert forall k :: 0 <= k < n ==> jit[..n][k] == jit[k];
      CallsWith(jit[..n], bufs) + [StatementLine(jit[n].name, ArgNames(jit[n], bufs))]
  }

  /** Growing the table does not change calls whose arguments it already
      names. */
  lemma {:induction false} CallsWithGrow(jit: seq<Invocation>, bufs: map<int, Entry>, bufs': map<int, Entry>)
    requires Known(jit, bufs)
    requires forall h :: h in bufs ==> h in bufs' && bufs'[h] == bufs[h]
    ensures Known(jit, bufs')
    ensures CallsWith(jit, bufs') == CallsWith(jit, bufs)
    decreases |jit|
  {
    if jit != [] {
      var n := |jit| - 1;
      assert forall k :: 0 <= k < n ==> jit[..n][k] == jit[k];
      CallsWithGrow(jit[..n], bufs, bufs');
      assert ArgNames(jit[n], bufs') == ArgNames(jit[n], bufs);
    }
  }

  /** The table of a jit cache names every surviving argument in it. */
  lemma KnownNet(jit: seq<Invocation>, buffers: map<int, Buffer>, special: map<int, string>)
    requires Sized(jit, buffers)
    ensures Known(jit, ResolveNet(jit, buffers, special).bufs)
  {
    var t := ResolveNet(jit, buffers, special);
    TableEntries(jit, buffers, special);
    forall k, j | 0 <= k < |jit| && 0 <= j < |Survivors(jit[k])|
      ensures Survivors(jit[k])[j].handle in t.bufs
    {
      SurvivorHandles(jit[k]);
      assert Survivors(jit[k])[j].handle in Handles(Survivors(jit[k]));
      assert Live(jit, Survivors(jit[k])[j].handle);
    }
    assert forall k :: 0 <= k < |jit| ==> UsesIn(Survivors(jit[k]), t.bufs);
  }

  /** Statement `k` calls invocation `k`'s kernel with the table names of
      its surviving arguments, in their original order. */
  lemma {:induction false} CallsAt(jit: seq<Invocation>, bufs: map<int, Entry>, k: nat)
    requires Known(jit, bufs) && k < |jit|
    ensures CallsWith(jit, bufs)[k] == StatementLine(jit[k].name, ArgNames(jit[k], bufs))
    decreases |jit|
  {
    var n := |jit| - 1;
    var prefix := jit[..n];
    assert forall i :: 0 <= i < n ==> prefix[i] == jit[i];
    var last := StatementLine(jit[n].name, ArgNames(jit[n], bufs));
    assert CallsWith(jit, bufs) == CallsWith(prefix, bufs) + [last];
    if k < n {
      CallsAt(prefix, bufs, k);
      assert prefix[k] == jit[k];
    }
  }

  // ---------------------------------------------------------------------
  // Declarations, weights and aliases
  // ---------------------------------------------------------------------

  /** The keys of the `bufs_to_save` dict. */
  function SavedNames(toSave: seq<Saved>): set<string>
  {
    set j | 0 <= j < |toSave| :: toSave[j].name
  }

  /** `[f"float {x[0]}[{x[1]}];" for x in bufs.values() if x[0] not in bufs_to_save]` */
  function Declarations(order: seq<int>, bufs: map<int, Entry>, saved: set<string>): seq<string>
    requires forall i :: 0 <= i < |order| ==> order[i] in bufs
    decreases |order|
  {
    if order == [] then []
    else
      var n := |order| - 1;
      var e := bufs[order[n]];
      Declarations(order[..n], bufs, saved) + (if e.name in saved then [] else [DeclLine(e)])
  }

  /** The entries of `order` whose handle is not in `drop`, in order. */
  function Keep(order: seq<int>, drop: set<int>): (kept: seq<int>)
    ensures forall j :: 0 <= j < |kept| ==> kept[j] in order && kept[j] !in drop
    decreases |order|
  {
    if order == [] then []
    else
      var n := |order| - 1;
      Keep(order[..n], drop) + (if order[n] in drop then [] else [order[n]])
  }

  /** A declaration line per handle of `hs`. */
  function DeclLines(hs: seq<int>, bufs: map<int, Entry>): (lines: seq<string>)
    requires forall j :: 0 <= j < |hs| ==> hs[j] in bufs
    ensures |lines| == |hs|
  {
    seq(|hs|, j requires 0 <= j < |hs| => DeclLine(bufs[hs[j]]))
  }

  /** The name filter of `Declarations` equals a filter on handles when a
      handle's name is saved exactly when the handle is. */
  lemma {:induction false} DeclarationsByHandle(order: seq<int>, bufs: map<int, Entry>, toSave: seq<Saved>)
    requires forall i :: 0 <= i < |order| ==> order[i] in bufs
    requires forall i :: 0 <= i < |order| ==>
      (bufs[order[i]].name in SavedNames(toSave) <==> order[i] in SavedHandles(toSave))
    ensures Declarations(order, bufs, SavedNames(toSave)) == DeclLines(Keep(order, SavedHandles(toSave)), bufs)
    decreases |order|
  {
    if order != [] {
      var n := |order| - 1;
      assert forall i :: 0 <= i < n ==> order[..n][i] == order[i];
      var kept := Keep(order[..n], SavedHandles(toSave));
      assert forall j :: 0 <= j < |kept| ==> kept[j] in order[..n];
      DeclarationsByHandle(order[..n], bufs, toSave);
      if order[n] !in SavedHandles(toSave) {
        var kept' := kept + [order[n]];
        assert DeclLines(kept', bufs) == DeclLines(kept, bufs) + [DeclLine(bufs[order[n]])];
      }
    }
  }

  /** When no special name looks like a generated name, a generated name
      belongs to one entry only. */
  lemma NameOwner(bufs: map<int, Entry>, g: seq<int>, special: map<int, string>, h: int, h': int)
    requires forall k :: k in g <==> k in bufs && k !in special
    requires NamedBy(bufs, g, GenName)
    requires forall k :: k in bufs && k in special ==> bufs[k].name == special[k]
    requires SpecialNamesFresh(special)
    requires h in bufs && h' in bufs && h' !in special
    requires bufs[h].name == bufs[h'].name
    ensures h == h'
  {
    var j' :| 0 <= j' < |g| && g[j'] == h';
    assert bufs[h'].name == GenName(j');
    if h !in special {
      var j :| 0 <= j < |g| && g[j] == h;
      GenNameInjective(j, j');
    }
  }

  /** When every saved item carries the name of a non-special entry and no
      special name looks like a generated name, an entry's name is saved
      exactly when its handle is. */
  lemma SavedByName(order: seq<int>, bufs: map<int, Entry>, toSave: seq<Saved>, g: seq<int>, special: map<int, string>)
    requires forall i :: 0 <= i < |order| ==> order[i] in bufs
    requires forall j :: 0 <= j < |toSave| ==>
      toSave[j].handle in bufs && toSave[j].handle !in special && toSave[j].name == bufs[toSave[j].handle].name
    requires forall k :: k in g <==> k in bufs && k !in special
    requires NamedBy(bufs, g, GenName)
    requires forall k :: k in bufs && k in special ==> bufs[k].name == special[k]
    requires SpecialNamesFresh(special)
    ensures forall i :: 0 <= i < |order| ==>
      (bufs[order[i]].name in SavedNames(toSave) <==> order[i] in SavedHandles(toSave))
  {
    forall i | 0 <= i < |order|
      ensures bufs[order[i]].name in SavedNames(toSave) <==> order[i] in SavedHandles(toSave)
    {
      var h := order[i];
      if h in SavedHandles(toSave) {
        var j :| 0 <= j < |toSave| && toSave[j].handle == h;
        assert toSave[j].name == bufs[h].name;
      }
      if bufs[h].name in SavedNames(toSave) {
        var j :| 0 <= j < |toSave| && toSave[j].name == bufs[h].name;
        NameOwner(bufs, g, special, h, toSave[j].handle);
      }
    }
  }

  /** Declarations: when no special name looks like a generated name, a
      `float name[size];` line is emitted for exactly the table entries that
      are not saved as weights (special buffers included), in first-seen
      order. */
  lemma DeclarationsExact(jit: seq<Invocation>, buffers: map<int, Buffer>, special: map<int, string>)
    requires Sized(jit, buffers)
    requires SpecialNamesFresh(special)
    ensures var t := ResolveNet(jit, buffers, special);
      && Listed(t)
      && Declarations(t.order, t.bufs, SavedNames(t.toSave)) == DeclLines(Keep(t.order, SavedHandles(t.toSave)), t.bufs)
      && (forall h :: h in SavedHandles(t.toSave) <==> IsWeight(Uses(jit), special, h))
  {
    var t := ResolveNet(jit, buffers, special);
    var g := Generated(t.order, special);
    TableEntries(jit, buffers, special);
    GeneratedExactly(jit, buffers, special);
    GeneratedNames(jit, buffers, special);
    SpecialNames(jit, buffers, special);
    WeightRule(jit, buffers, special);
    forall j | 0 <= j < |t.toSave|
      ensures t.toSave[j].handle !in special
    {
      assert t.toSave[j].handle in SavedHandles(t.toSave);
    }
    SavedByName(t.order, t.bufs, t.toSave, g, special);
    DeclarationsByHandle(t.order, t.bufs, t.toSave);
  }

  /** One `unsigned char` data line per saved buffer, in save order. */
  function WeightLines(toSave: seq<Saved>, buffers: map<int, Buffer>): (lines: seq<string>)
    requires forall j :: 0 <= j < |toSave| ==> toSave[j].handle in buffers
    ensures |lines| == |toSave|
  {
    seq(|toSave|, j requires 0 <= j < |toSave| => WeightLine(toSave[j].name, buffers[toSave[j].handle].payload))
  }

  /** One `float *` alias per saved buffer, in save order. */
  function AliasLines(toSave: seq<Saved>): (lines: seq<string>)
    ensures |lines| == |toSave|
  {
    seq(|toSave|, j requires 0 <= j < |toSave| => AliasLine(toSave[j].name))
  }

  /** The kernel source lines, one per invocation. */
  function Sources(jit: seq<Invocation>): (lines: seq<string>)
    ensures |lines| == |jit|
  {
    seq(|jit|, k requires 0 <= k < |jit| => jit[k].src)
  }

  lemma SavedSized(jit: seq<Invocation>, buffers: map<int, Buffer>, special: map<int, string>)
    requires Sized(jit, buffers)
    ensures var t := ResolveNet(jit, buffers, special);
      && Listed(t)
      && (forall j :: 0 <= j < |t.toSave| ==> t.toSave[j].handle in buffers)
  {
    ResolveNetConsistent(jit, buffers, special);
    WeightRule(jit, buffers, special);
  }

  /** What emitting needs of a table: its key order lists keys of `bufs`,
      its saved buffers have bytes, and it names every surviving argument. */
  ghost predicate Ready(jit: seq<Invocation>, buffers: map<int, Buffer>, t: Table)
  {
    && Listed(t)
    && (forall j :: 0 <= j < |t.toSave| ==> t.toSave[j].handle in buffers)
    && Known(jit, t.bufs)
  }

  /** The table of a jit cache is ready to be emitted. */
  lemma ReadyNet(jit: seq<Invocation>, buffers: map<int, Buffer>, special: map<int, string>)
    requires Sized(jit, buffers)
    ensures Ready(jit, buffers, ResolveNet(jit, buffers, special))
  {
    SavedSized(jit, buffers, special);
    KnownNet(jit, buffers, special);
  }

  /** The lines emitted from table `t`. */
  function Emit(jit: seq<Invocation>, buffers: map<int, Buffer>, t: Table): seq<string>
    requires Ready(jit, buffers, t)
  {
    Layout(WeightLines(t.toSave, buffers), Header, Sources(jit),
           Declarations(t.order, t.bufs, SavedNames(t.toSave)),
           AliasLines(t.toSave), CallsWith(jit, t.bufs))
  }

  /** The list `compile_net` returns: `weights + cprog`, emitted from the
      table of the whole jit cache. */
  function Program(jit: seq<Invocation>, buffers: map<int, Buffer>, special: map<int, string>): seq<string>
    requires Sized(jit, buffers)
  {
    ReadyNet(jit, buffers, special);
    Emit(jit, buffers, ResolveNet(jit, buffers, special))
  }

  /** The order of the parts in the returned lines. */
  function Layout(wl: seq<string>, hd: seq<string>, src: seq<string>, decl: seq<string>,
                  al: seq<string>, calls: seq<string>): (p: seq<string>)
    ensures |p| == |wl| + |hd| + |src| + |decl| + |al| + 1 + |calls| + 1
  {
    wl + hd + src + decl + al + ["void net() {"] + calls + ["}"]
  }

  // Where each part of the layout lands.

  lemma WeightsAt(wl: seq<string>, hd: seq<string>, src: seq<string>, decl: seq<string>,
                  al: seq<string>, calls: seq<string>)
    ensures forall j :: 0 <= j < |wl| ==> Layout(wl, hd, src, decl, al, calls)[j] == wl[j]
  {
  }

  lemma HeaderAt(wl: seq<string>, hd: seq<string>, src: seq<string>, decl: seq<string>,
                 al: seq<string>, calls: seq<string>)
    ensures forall i :: 0 <= i < |hd| ==> Layout(wl, hd, src, decl, al, calls)[|wl| + i] == hd[i]
  {
  }

  lemma SourcesAt(wl: seq<string>, hd: seq<string>, src: seq<string>, decl: seq<string>,
                  al: seq<string>, calls: seq<string>)
    ensures forall k :: 0 <= k < |src| ==> Layout(wl, hd, src, decl, al, calls)[|wl| + |hd| + k] == src[k]
  {
  }

  lemma DeclsAt(wl: seq<string>, hd: seq<string>, src: seq<string>, decl: seq<string>,
                al: seq<string>, calls: seq<string>)
    ensures forall j :: 0 <= j < |decl| ==> Layout(wl, hd, src, decl, al, calls)[|wl| + |hd| + |src| + j] == decl[j]
  {
  }

  lemma AliasesAt(wl: seq<string>, hd: seq<string>, src: seq<string>, decl: seq<string>,
                  al: seq<string>, calls: seq<string>)
    ensures var a := |wl| + |hd| + |src| + |decl|;
      forall j :: 0 <= j < |al| ==> Layout(wl, hd, src, decl, al, calls)[a + j] == al[j]
  {
  }

  lemma CallsAtLayout(wl: seq<string>, hd: seq<string>, src: seq<string>, decl: seq<string>,
                      al: seq<string>, calls: seq<string>)
    ensures var c := |wl| + |hd| + |src| + |decl| + |al| + 1;
      var p := Layout(wl, hd, src, decl, al, calls);
      && p[c - 1] == "void net() {"
      && p[c + |calls|] == "}"
      && forall k :: 0 <= k < |calls| ==> p[c + k] == calls[k]
  {
  }

  /** Weight rule, emitted: the output opens with one `unsigned char` data
      line per saved buffer, in save order, holding the escaped bytes of
      that buffer. */
  lemma WeightsPlaced(jit: seq<Invocation>, buffers: map<int, Buffer>, t: Table)
    requires Ready(jit, buffers, t)
    ensures var p := Emit(jit, buffers, t);
      && |t.toSave| <= |p|
      && forall j :: 0 <= j < |t.toSave| ==>
           p[j] == WeightLine(t.toSave[j].name, buffers[t.toSave[j].handle].payload)
  {
    WeightsAt(WeightLines(t.toSave, buffers), Header, Sources(jit),
              Declarations(t.order, t.bufs, SavedNames(t.toSave)),
              AliasLines(t.toSave), CallsWith(jit, t.bufs));
  }

  /** The three header lines follow the weight lines. */
  lemma HeaderPlaced(jit: seq<Invocation>, buffers: map<int, Buffer>, t: Table)
    requires Ready(jit, buffers, t)
    ensures var p, w := Emit(jit, buffers, t), |t.toSave|;
      && w + 3 <= |p|
      && p[w] == "#include <stdio.h>"
      && p[w + 1] == "#include <math.h>"
      && p[w + 2] == "#define max(x,y) fmax(x,y)"
  {
    HeaderAt(WeightLines(t.toSave, buffers), Header, Sources(jit),
             Declarations(t.order, t.bufs, SavedNames(t.toSave)),
             AliasLines(t.toSave), CallsWith(jit, t.bufs));
  }

  /** Kernel duplication: after the header, line `k` is the source of
      invocation `k`, so a kernel that occurs twice is emitted twice. */
  lemma SourcesPlaced(jit: seq<Invocation>, buffers: map<int, Buffer>, t: Table)
    requires Ready(jit, buffers, t)
    ensures var p, w := Emit(jit, buffers, t), |t.toSave|;
      && w + 3 + |jit| <= |p|
      && forall k :: 0 <= k < |jit| ==> p[w + 3 + k] == jit[k].src
  {
    SourcesAt(WeightLines(t.toSave, buffers), Header, Sources(jit),
              Declarations(t.order, t.bufs, SavedNames(t.toSave)),
              AliasLines(t.toSave), CallsWith(jit, t.bufs));
  }

  /** After the kernel sources come the declarations, in table order. */
  lemma DeclarationsPlaced(jit: seq<Invocation>, buffers: map<int, Buffer>, t: Table)
    requires Ready(jit, buffers, t)
    ensures var p, decls := Emit(jit, buffers, t), Declarations(t.order, t.bufs, SavedNames(t.toSave));
      var d := |t.toSave| + 3 + |jit|;
      && d + |decls| <= |p|
      && forall j :: 0 <= j < |decls| ==> p[d + j] == decls[j]
  {
    DeclsAt(WeightLines(t.toSave, buffers), Header, Sources(jit),
            Declarations(t.order, t.bufs, SavedNames(t.toSave)),
            AliasLines(t.toSave), CallsWith(jit, t.bufs));
  }

  /** After the declarations comes one `float *` alias per saved buffer, in
      save order. */
  lemma AliasesPlaced(jit: seq<Invocation>, buffers: map<int, Buffer>, t: Table)
    requires Ready(jit, buffers, t)
    ensures var p, w := Emit(jit, buffers, t), |t.toSave|;
      var a := w + 3 + |jit| + |Declarations(t.order, t.bufs, SavedNames(t.toSave))|;
      && a + w <= |p|
      && forall j :: 0 <= j < w ==> p[a + j] == AliasLine(t.toSave[j].name)
  {
    AliasesAt(WeightLines(t.toSave, buffers), Header, Sources(jit),
              Declarations(t.order, t.bufs, SavedNames(t.toSave)),
              AliasLines(t.toSave), CallsWith(jit, t.bufs));
  }

  /** Call order: the body of `net()` holds exactly one statement per
      invocation, in jit-cache order, and closes the output; statement `k`
      calls invocation `k`'s kernel with the table names of its arguments
      at positions not deleted, in their original order. */
  lemma CallsPlaced(jit: seq<Invocation>, buffers: map<int, Buffer>, t: Table)
    requires Ready(jit, buffers, t)
    ensures var p, w, n := Emit(jit, buffers, t), |t.toSave|, |jit|;
      var c := w + 3 + n + |Declarations(t.order, t.bufs, SavedNames(t.toSave))| + w + 1;
      && |p| == c + n + 1
      && p[c - 1] == "void net() {" && p[c + n] == "}"
      && forall k :: 0 <= k < n ==> p[c + k] == StatementLine(jit[k].name, ArgNames(jit[k], t.bufs))
  {
    var wl, decl, al := WeightLines(t.toSave, buffers), Declarations(t.order, t.bufs, SavedNames(t.toSave)), AliasLines(t.toSave);
    var calls := CallsWith(jit, t.bufs);
    var p := Emit(jit, buffers, t);
    assert p == Layout(wl, Header, Sources(jit), decl, al, calls);
    CallsAtLayout(wl, Header, Sources(jit), decl, al, calls);
    var c := |t.toSave| + 3 + |jit| + |decl| + |t.toSave| + 1;
    assert c == |wl| + |Header| + |Sources(jit)| + |decl| + |al| + 1;
    forall k | 0 <= k < |jit|
      ensures p[c + k] == StatementLine(jit[k].name, ArgNames(jit[k], t.bufs))
    {
      assert UsesIn(Survivors(jit[k]), t.bufs);
      CallsAt(jit, t.bufs, k);
      assert p[c + k] == calls[k];
    }
  }

  /** Consistent naming in calls: argument `j` of call `k` is the table name
      of the handle at the `j`-th position of invocation `k` that is not
      deleted; those positions keep their original order. */
  lemma CallArguments(jit: seq<Invocation>, buffers: map<int, Buffer>, special: map<int, string>, k: nat)
    requires Sized(jit, buffers) && k < |jit|
    ensures var t := ResolveNet(jit, buffers, special);
      var s := Survivors(jit[k]);
      && (forall j :: 0 <= j < |s| ==> s[j].handle in t.bufs)
      && var names := ArgNames(jit[k], t.bufs);
      && |names| == |s|
      && (forall j :: 0 <= j < |s| ==>
            && s[j].pos < |jit[k].args| && s[j].pos !in jit[k].deleted
            && s[j].handle == jit[k].args[s[j].pos]
            && names[j] == t.bufs[s[j].handle].name)
      && (forall j1, j2 :: 0 <= j1 < j2 < |s| ==> s[j1].pos < s[j2].pos)
      && (forall q :: 0 <= q < |jit[k].args| && q !in jit[k].deleted ==> exists j :: 0 <= j < |s| && s[j].pos == q)
  {
    KnownNet(jit, buffers, special);
    SurvivingSpec(jit[k].args, jit[k].deleted, |jit[k].args|);
    var t := ResolveNet(jit, buffers, special);
    var s := Survivors(jit[k]);
    assert forall j :: 0 <= j < |s| ==> s[j].handle in t.bufs;
    var names := ArgNames(jit[k], t.bufs);
    assert forall j :: 0 <= j < |s| ==> names[j] == t.bufs[s[j].handle].name;
  }
}
