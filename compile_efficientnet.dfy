/** `compile_net`: lowers a captured jit cache to one self-contained C
    program.  The method keeps the source's local state (`weights`, `cprog`,
    the `bufs` dict with its insertion order, `bufnum`, `statements`,
    `bufs_to_save`) and its loops, and is proved to return exactly
    `Program`, whose properties the `Resolver` and `Emitter` lemmas state. */
module CompileEfficientnet {
  import opened Text
  import opened Resolver
  import opened Emitter

  /** The body of the inner loop for one argument that is not deleted: a
      handle met before keeps its entry; a new special handle gets its
      special name; any other new handle gets `buf_<bufnum>`, advances the
      counter, and is queued for saving when `pos > 0`.  Returns the name
      the call statement uses for the argument. */
  method RegisterArg(key: int, pos: nat, buffers: map<int, Buffer>, special: map<int, string>, t0: Table)
    returns (t: Table, name: string)
    requires key in buffers
    ensures t == Register(t0, Use(key, pos), buffers, special)
    ensures key in t.bufs && name == t.bufs[key].name
    ensures forall h :: h in t0.bufs ==> h in t.bufs && t.bufs[h] == t0.bufs[h]
  {
    t := t0;
    if key !in t.bufs {
      if key in special {
        t := t.(bufs := t.bufs[key := Entry(special[key], buffers[key].len / 4)], order := t.order + [key]);
      } else {
        var gen := GenName(t.bufnum);
        t := t.(bufs := t.bufs[key := Entry(gen, buffers[key].len / 4)], order := t.order + [key], bufnum := t.bufnum + 1);
        if pos > 0 {
          t := t.(toSave := t.toSave + [Saved(gen, key)]);
        }
      }
    }
    name := t.bufs[key].name;
  }

  /** One turn of the inner loop: argument `i` is skipped when deleted,
      and registered and named otherwise. */
  method VisitArg(inv: Invocation, i: nat, buffers: map<int, Buffer>, special: map<int, string>,
                  ghost before: seq<Use>, t0: Table, cargs0: seq<string>)
    returns (t: Table, cargs: seq<string>)
    requires i < |inv.args| && ArgsSized(inv, buffers)
    requires UsesIn(before + Surviving(inv.args, inv.deleted, i), buffers)
    requires t0 == Resolve(before + Surviving(inv.args, inv.deleted, i), buffers, special)
    requires UsesIn(Surviving(inv.args, inv.deleted, i), t0.bufs)
    requires cargs0 == UseNames(Surviving(inv.args, inv.deleted, i), t0.bufs)
    ensures UsesIn(before + Surviving(inv.args, inv.deleted, i + 1), buffers)
    ensures t == Resolve(before + Surviving(inv.args, inv.deleted, i + 1), buffers, special)
    ensures forall h :: h in t0.bufs ==> h in t.bufs && t.bufs[h] == t0.bufs[h]
    ensures UsesIn(Surviving(inv.args, inv.deleted, i + 1), t.bufs)
    ensures cargs == UseNames(Surviving(inv.args, inv.deleted, i + 1), t.bufs)
  {
    ghost var done := Surviving(inv.args, inv.deleted, i);
    SurvivingStep(inv.args, inv.deleted, i);
    t, cargs := t0, cargs0;
    if i !in inv.deleted {
      ghost var u := Use(inv.args[i], i);
      ResolveStep(before, done, u, buffers, special);
      var name;
      t, name := RegisterArg(inv.args[i], i, buffers, special, t0);
      UseNamesGrow(done, t0.bufs, t.bufs, u);
      cargs := cargs0 + [name];
    }
  }

  /** The inner loop over one invocation's arguments: registers each
      argument not marked deleted, in position order, and collects the
      argument names for its call statement. */
  method ResolveArgs(inv: Invocation, buffers: map<int, Buffer>, special: map<int, string>,
                     ghost before: seq<Use>, t0: Table)
    returns (t: Table, cargs: seq<string>)
    requires UsesIn(before, buffers) && ArgsSized(inv, buffers)
    requires t0 == Resolve(before, buffers, special)
    ensures UsesIn(before + Survivors(inv), buffers)
    ensures t == Resolve(before + Survivors(inv), buffers, special)
    ensures forall h :: h in t0.bufs ==> h in t.bufs && t.bufs[h] == t0.bufs[h]
    ensures UsesIn(Survivors(inv), t.bufs)
    ensures cargs == ArgNames(inv, t.bufs)
  {
    t := t0;
    cargs := [];
    var i := 0;
    assert before + Surviving(inv.args, inv.deleted, 0) == before;
    while i < |inv.args|
      invariant 0 <= i <= |inv.args|
      invariant UsesIn(before + Surviving(inv.args, inv.deleted, i), buffers)
      invariant t == Resolve(before + Surviving(inv.args, inv.deleted, i), buffers, special)
      invariant forall h :: h in t0.bufs ==> h in t.bufs && t.bufs[h] == t0.bufs[h]
      invariant UsesIn(Surviving(inv.args, inv.deleted, i), t.bufs)
      invariant cargs == UseNames(Surviving(inv.args, inv.deleted, i), t.bufs)
    {
      t, cargs := VisitArg(inv, i, buffers, special, before, t, cargs);
      i := i + 1;
    }
  }

  /** Growing the table keeps the names of the uses it already names, and
      one more named use adds its name at the end. */
  lemma UseNamesGrow(us: seq<Use>, bufs: map<int, Entry>, bufs': map<int, Entry>, u: Use)
    requires UsesIn(us, bufs) && u.handle in bufs'
    requires forall h :: h in bufs ==> h in bufs' && bufs'[h] == bufs[h]
    ensures UsesIn(us + [u], bufs')
    ensures UseNames(us + [u], bufs') == UseNames(us, bufs) + [bufs'[u.handle].name]
  {
  }

  /** One more argument extends the surviving uses exactly when it is live. */
  lemma SurvivingStep(args: seq<int>, deleted: set<nat>, i: nat)
    requires i < |args|
    ensures Surviving(args, deleted, i + 1)
      == if i in deleted then Surviving(args, deleted, i) else Surviving(args, deleted, i) + [Use(args[i], i)]
  {
  }

  /** Registering one more use extends the fold by one step. */
  lemma ResolveStep(before: seq<Use>, done: seq<Use>, u: Use, buffers: map<int, Buffer>, special: map<int, string>)
    requires UsesIn(before + done, buffers) && u.handle in buffers
    ensures UsesIn(before + (done + [u]), buffers)
    ensures Resolve(before + (done + [u]), buffers, special)
      == Register(Resolve(before + done, buffers, special), u, buffers, special)
  {
    var us := before + done;
    assert before + (done + [u]) == us + [u];
    assert (us + [u])[..|us|] == us;
  }

  /** The weights loop over `bufs_to_save`: one data line per saved buffer,
      and one alias line appended to `cprog` for each, in save order. */
  method EmitWeights(toSave: seq<Saved>, buffers: map<int, Buffer>, cprog0: seq<string>)
    returns (weights: seq<string>, cprog: seq<string>)
    requires forall j :: 0 <= j < |toSave| ==> toSave[j].handle in buffers
    ensures weights == WeightLines(toSave, buffers)
    ensures cprog == cprog0 + AliasLines(toSave)
  {
    weights, cprog := [], cprog0;
    var j := 0;
    while j < |toSave|
      invariant 0 <= j <= |toSave|
      invariant |weights| == j && |cprog| == |cprog0| + j
      invariant forall m :: 0 <= m < j ==> weights[m] == WeightLine(toSave[m].name, buffers[toSave[m].handle].payload)
      invariant cprog[..|cprog0|] == cprog0
      invariant forall m :: 0 <= m < j ==> cprog[|cprog0| + m] == AliasLine(toSave[m].name)
    {
      var name, key := toSave[j].name, toSave[j].handle;
      var weight := Escape(buffers[key].payload);
      weights := weights + ["unsigned char " + name + "_data[] = \"" + weight + "\";"];
      cprog := cprog + ["float *" + name + " = (float *)" + name + "_data;"];
      j := j + 1;
    }
  }

  /** Lowers `jit` to C lines.  `buffers` gives each buffer handle's length
      and bytes; `special` maps handles to caller-chosen names.  The `bufs`
      dict (with its insertion order), `bufnum` and `bufs_to_save` are the
      fields of the table `t`. */
  method CompileNet(jit: seq<Invocation>, buffers: map<int, Buffer>, special: map<int, string>)
    returns (lines: seq<string>)
    requires Sized(jit, buffers)
    ensures lines == Program(jit, buffers, special)
  {
    var weights: seq<string> := [];
    var cprog := Header;
    var t := Empty;
    var statements: seq<string> := [];

    var k := 0;
    while k < |jit|
      invariant 0 <= k <= |jit|
      invariant Sized(jit[..k], buffers)
      invariant t == ResolveNet(jit[..k], buffers, special)
      invariant cprog == Header + Sources(jit[..k])
      invariant Known(jit[..k], t.bufs) && statements == CallsWith(jit[..k], t.bufs)
    {
      var inv := jit[k];
      PrefixStep(jit, buffers, special, k);
      cprog := cprog + [inv.src];
      var bufs0 := t.bufs;
      var cargs;
      t, cargs := ResolveArgs(inv, buffers, special, Uses(jit[..k]), t);
      CallsWithGrow(jit[..k], bufs0, t.bufs);
      CallsWithSnoc(jit, t.bufs, k);
      statements := statements + [StatementLine(inv.name, cargs)];
      k := k + 1;
    }
    WholeNet(jit, buffers, special);

    cprog := cprog + Declarations(t.order, t.bufs, SavedNames(t.toSave));
    weights, cprog := EmitWeights(t.toSave, buffers, cprog);
    cprog := cprog + ["void net() {"] + statements + ["}"];
    lines := weights + cprog;
    Assemble(weights, Header, Sources(jit), Declarations(t.order, t.bufs, SavedNames(t.toSave)),
             AliasLines(t.toSave), "void net() {", statements, "}");
  }

  /** What one turn of the outer loop needs: the uses of the first `k + 1`
      invocations are those of the first `k` followed by invocation `k`'s,
      all of them are sized, and one more kernel source is appended. */
  lemma PrefixStep(jit: seq<Invocation>, buffers: map<int, Buffer>, special: map<int, string>, k: nat)
    requires Sized(jit, buffers) && k < |jit|
    ensures Sized(jit[..k], buffers) && Sized(jit[..k + 1], buffers)
    ensures UsesIn(Uses(jit[..k]), buffers) && ArgsSized(jit[k], buffers)
    ensures ResolveNet(jit[..k], buffers, special) == Resolve(Uses(jit[..k]), buffers, special)
    ensures UsesIn(Uses(jit[..k]) + Survivors(jit[k]), buffers)
    ensures ResolveNet(jit[..k + 1], buffers, special) == Resolve(Uses(jit[..k]) + Survivors(jit[k]), buffers, special)
    ensures Header + Sources(jit[..k + 1]) == Header + Sources(jit[..k]) + [jit[k].src]
  {
    assert jit[..k + 1][..k] == jit[..k];
    UsesSized(jit[..k], buffers);
    UsesSized(jit[..k + 1], buffers);
    assert Sources(jit[..k + 1]) == Sources(jit[..k]) + [jit[k].src];
  }

  /** After the outer loop the prefix is the whole jit cache, whose table
      lists every key, saves only sized buffers and names every argument. */
  lemma WholeNet(jit: seq<Invocation>, buffers: map<int, Buffer>, special: map<int, string>)
    requires Sized(jit, buffers)
    ensures jit[..|jit|] == jit
    ensures var t := ResolveNet(jit, buffers, special);
      && Listed(t)
      && (forall j :: 0 <= j < |t.toSave| ==> t.toSave[j].handle in buffers)
      && Known(jit, t.bufs)
  {
    SavedSized(jit, buffers, special);
    KnownNet(jit, buffers, special);
  }

  /** The method's way of building the list and `Program`'s agree. */
  lemma Assemble(wl: seq<string>, hd: seq<string>, src: seq<string>, decl: seq<string>,
                 al: seq<string>, open: string, calls: seq<string>, close: string)
    ensures wl + ((hd + src + decl + al) + [open] + calls + [close])
      == wl + hd + src + decl + al + [open] + calls + [close]
  {
  }

  /** The calls of the first `k + 1` invocations are those of the first `k`
      followed by invocation `k`'s. */
  lemma CallsWithSnoc(jit: seq<Invocation>, bufs: map<int, Entry>, k: nat)
    requires k < |jit| && Known(jit[..k], bufs)
    requires UsesIn(Survivors(jit[k]), bufs)
    ensures Known(jit[..k + 1], bufs)
    ensures CallsWith(jit[..k + 1], bufs) == CallsWith(jit[..k], bufs) + [StatementLine(jit[k].name, ArgNames(jit[k], bufs))]
  {
    assert jit[..k + 1][..k] == jit[..k];
  }
}
