/** The buffer table that `compile_net` builds while it walks the jit cache:
    which buffer handles it meets, in which order, under which name and size,
    and which of them it saves as weights.  The table is specified here as a
    left fold of one registration step over the flat list of surviving
    argument uses; the lemmas state what that fold guarantees. */
module Resolver {
  import opened Text

  /** One entry of the jit cache: the kernel's callable name
      (`fxn.clprg.name`), its source text (`fxn.clprg.prg`), the handles of
      its argument buffers (`id(arg.cl)`), and the argument positions the
      trace marked as dead (`fxn.bufs_to_delete`). */
  datatype Invocation = Invocation(name: string, src: string, args: seq<int>, deleted: set<nat>)

  /** What the pass reads from a buffer object: its length `len(cl)` and the
      bytes it embeds when the buffer is a weight. */
  datatype Buffer = Buffer(len: nat, payload: seq<byte>)

  /** A surviving argument: the buffer handle and its original position. */
  datatype Use = Use(handle: int, pos: nat)

  /** A value of the `bufs` dict: the buffer's C name and element count. */
  datatype Entry = Entry(name: string, size: nat)

  /** An item of the `bufs_to_save` dict: the name and the buffer it saves. */
  datatype Saved = Saved(name: string, handle: int)

  /** The resolver's state: the `bufs` dict (a map and, since Python dicts
      remember insertion order, the order of its keys), the `bufnum`
      counter and the `bufs_to_save` dict in insertion order. */
  datatype Table = Table(bufs: map<int, Entry>, order: seq<int>, bufnum: nat, toSave: seq<Saved>)

  // ---------------------------------------------------------------------
  // Surviving argument uses
  // ---------------------------------------------------------------------

  /** The uses among the first `n` arguments that are not deleted: exactly
      the live positions below `n`, in their original order. */
  function Surviving(args: seq<int>, deleted: set<nat>, n: nat): (s: seq<Use>)
    requires n <= |args|
    ensures |s| <= n
  {
    if n == 0 then []
    else
      var prefix := Surviving(args, deleted, n - 1);
      if n - 1 in deleted then prefix
      else prefix + [Use(args[n - 1], n - 1)]
  }

  /** `s` lists the positions below `n` that are not in `deleted`, each
      once, in increasing order, each with the handle passed there. */
  ghost predicate SurvivingExactly(args: seq<int>, deleted: set<nat>, n: nat, s: seq<Use>)
    requires n <= |args|
  {
    && (forall j :: 0 <= j < |s| ==> s[j].pos < n && s[j].pos !in deleted && s[j].handle == args[s[j].pos])
    && (forall j1, j2 :: 0 <= j1 < j2 < |s| ==> s[j1].pos < s[j2].pos)
    && (forall p :: 0 <= p < n && p !in deleted ==> exists j :: 0 <= j < |s| && s[j].pos == p)
  }

  /** The surviving uses are exactly the non-deleted positions below `n`,
      in increasing order, each with the handle passed there. */
  lemma {:induction false} SurvivingSpec(args: seq<int>, deleted: set<nat>, n: nat)
    requires n <= |args|
    ensures SurvivingExactly(args, deleted, n, Surviving(args, deleted, n))
    decreases n
  {
    if n > 0 {
      SurvivingSpec(args, deleted, n - 1);
      SurvivingStepExact(args, deleted, n);
    }
  }

  /** One more position extends an exact listing of the positions below
      `n - 1` to one of the positions below `n`. */
  lemma SurvivingStepExact(args: seq<int>, deleted: set<nat>, n: nat)
    requires 0 < n <= |args|
    requires SurvivingExactly(args, deleted, n - 1, Surviving(args, deleted, n - 1))
    ensures SurvivingExactly(args, deleted, n, Surviving(args, deleted, n))
  {
    if n - 1 in deleted {
      SurvivingSkip(args, deleted, n - 1, Surviving(args, deleted, n - 1));
    } else {
      SurvivingExtend(args, deleted, n - 1, Surviving(args, deleted, n - 1));
    }
  }

  /** A deleted position adds nothing to the listing. */
  lemma SurvivingSkip(args: seq<int>, deleted: set<nat>, m: nat, s: seq<Use>)
    requires m < |args| && m in deleted
    requires SurvivingExactly(args, deleted, m, s)
    ensures SurvivingExactly(args, deleted, m + 1, s)
  {
    forall p | 0 <= p < m + 1 && p !in deleted ensures exists j :: 0 <= j < |s| && s[j].pos == p {
      assert p < m;
    }
  }

  /** A live position adds its use at the end of the listing. */
  lemma SurvivingExtend(args: seq<int>, deleted: set<nat>, m: nat, prefix: seq<Use>)
    requires m < |args| && m !in deleted
    requires SurvivingExactly(args, deleted, m, prefix)
    ensures SurvivingExactly(args, deleted, m + 1, prefix + [Use(args[m], m)])
  {
    var s := prefix + [Use(args[m], m)];
    assert forall j :: 0 <= j < |prefix| ==> s[j] == prefix[j];
    assert s[|prefix|].pos == m;
    forall p | 0 <= p < m + 1 && p !in deleted ensures exists j :: 0 <= j < |s| && s[j].pos == p {
      if p == m {
        assert s[|prefix|].pos == p;
      } else {
        var j :| 0 <= j < |prefix| && prefix[j].pos == p;
        assert s[j].pos == p;
      }
    }
  }

  /** The surviving uses of one invocation. */
  function Survivors(inv: Invocation): seq<Use>
  {
    Surviving(inv.args, inv.deleted, |inv.args|)
  }

  /** All surviving uses of the jit cache, invocation after invocation. */
  function Uses(jit: seq<Invocation>): seq<Use>
  {
    if jit == [] then [] else Uses(jit[..|jit| - 1]) + Survivors(jit[|jit| - 1])
  }

  /** Every live argument names a buffer whose length is known (every
      `arg.cl` of the source has a `len`). */
  predicate Sized(jit: seq<Invocation>, buffers: map<int, Buffer>)
  {
    forall k :: 0 <= k < |jit| ==> ArgsSized(jit[k], buffers)
  }

  /** Every live argument of `inv` names a buffer whose length is known. */
  predicate ArgsSized(inv: Invocation, buffers: map<int, Buffer>)
  {
    forall p :: 0 <= p < |inv.args| && p !in inv.deleted ==> inv.args[p] in buffers
  }

  /** Every use of `us` has its handle among the keys of `m`. */
  predicate UsesIn<V>(us: seq<Use>, m: map<int, V>)
  {
    forall j :: 0 <= j < |us| ==> us[j].handle in m
  }

  lemma {:induction false} UsesSized(jit: seq<Invocation>, buffers: map<int, Buffer>)
    requires Sized(jit, buffers)
    ensures UsesIn(Uses(jit), buffers)
    decreases |jit|
  {
    if jit != [] {
      var n := |jit| - 1;
      assert Sized(jit[..n], buffers) by {
        assert forall k :: 0 <= k < n ==> jit[..n][k] == jit[k];
      }
      UsesSized(jit[..n], buffers);
      SurvivorsSized(jit[n], buffers);
      var a, b := Uses(jit[..n]), Survivors(jit[n]);
      assert Uses(jit) == a + b;
      assert forall j :: 0 <= j < |b| ==> (a + b)[|a| + j] == b[j];
    }
  }

  lemma SurvivorsSized(inv: Invocation, buffers: map<int, Buffer>)
    requires ArgsSized(inv, buffers)
    ensures UsesIn(Survivors(inv), buffers)
  {
    SurvivingSpec(inv.args, inv.deleted, |inv.args|);
    var s := Survivors(inv);
    forall j | 0 <= j < |s| ensures s[j].handle in buffers {
      var p := s[j].pos;
      assert p < |inv.args| && p !in inv.deleted && s[j].handle == inv.args[p];
    }
  }

  /** The handles among a list of uses. */
  function Handles(us: seq<Use>): set<int>
  {
    set j | 0 <= j < |us| :: us[j].handle
  }

  /** The index of the first use of `h`. */
  function FirstUse(us: seq<Use>, h: int): (k: nat)
    requires h in Handles(us)
    ensures k < |us| && us[k].handle == h
    ensures forall j :: 0 <= j < k ==> us[j].handle != h
    decreases |us|
  {
    var n := |us| - 1;
    if h in Handles(us[..n]) then FirstUse(us[..n], h) else n
  }

  // ---------------------------------------------------------------------
  // The registration step and the fold
  // ---------------------------------------------------------------------

  /** The name `f"buf_{n}"` given to the `n`-th non-special buffer. */
  function GenName(n: nat): string
  {
    "buf_" + NatToString(n)
  }

  /** Distinct counter values give distinct generated names. */
  lemma GenNameInjective(m: nat, n: nat)
    ensures GenName(m) == GenName(n) ==> m == n
  {
    if GenName(m) == GenName(n) {
      assert GenName(m)[4..] == NatToString(m);
      assert GenName(n)[4..] == NatToString(n);
      NatToStringInjective(m, n);
    }
  }

  /** What the inner loop does with one surviving argument: a handle seen
      before leaves the table alone; a new special handle gets its special
      name; a new other handle gets the next `buf_<n>` name, advances the
      counter, and is saved when its first position is not 0.  Both kinds of
      new entry are sized `len // 4`. */
  function Register(t: Table, u: Use, buffers: map<int, Buffer>, special: map<int, string>): (r: Table)
    requires u.handle in buffers
    ensures u.handle in r.bufs
    ensures forall h :: h in t.bufs ==> h in r.bufs && r.bufs[h] == t.bufs[h]
  {
    var key := u.handle;
    if key in t.bufs then t
    else if key in special then
      t.(bufs := t.bufs[key := Entry(special[key], buffers[key].len / 4)], order := t.order + [key])
    else
      var name := GenName(t.bufnum);
      t.(bufs := t.bufs[key := Entry(name, buffers[key].len / 4)],
         order := t.order + [key],
         bufnum := t.bufnum + 1,
         toSave := if u.pos > 0 then t.toSave + [Saved(name, key)] else t.toSave)
  }

  const Empty := Table(map[], [], 0, [])

  /** The table after registering every use of `us` in turn. */
  function Resolve(us: seq<Use>, buffers: map<int, Buffer>, special: map<int, string>): Table
    requires UsesIn(us, buffers)
    decreases |us|
  {
    if us == [] then Empty
    else Register(Resolve(us[..|us| - 1], buffers, special), us[|us| - 1], buffers, special)
  }

  /** The table `compile_net` holds after its loop over the whole jit cache. */
  function ResolveNet(jit: seq<Invocation>, buffers: map<int, Buffer>, special: map<int, string>): Table
    requires Sized(jit, buffers)
  {
    UsesSized(jit, buffers);
    Resolve(Uses(jit), buffers, special)
  }

  // ---------------------------------------------------------------------
  // The invariant of the fold
  // ---------------------------------------------------------------------

  /** The handles of `order` that are not special, in order: those that
      received `buf_<n>` names. */
  function Generated(order: seq<int>, special: map<int, string>): (g: seq<int>)
    ensures forall j :: 0 <= j < |g| ==> g[j] in order && g[j] !in special
    decreases |order|
  {
    if order == [] then []
    else
      var h := order[|order| - 1];
      Generated(order[..|order| - 1], special) + (if h in special then [] else [h])
  }

  /** The weight rule: a buffer is a weight when it is not special and its
      first surviving use is at a position greater than 0. */
  predicate IsWeight(us: seq<Use>, special: map<int, string>, h: int)
  {
    h in Handles(us) && h !in special && us[FirstUse(us, h)].pos > 0
  }

  /** The weights among `order`, in order. */
  function WeightOrder(us: seq<Use>, special: map<int, string>, order: seq<int>): (w: seq<int>)
    ensures forall j :: 0 <= j < |w| ==> w[j] in order && IsWeight(us, special, w[j])
    decreases |order|
  {
    if order == [] then []
    else
      var h := order[|order| - 1];
      WeightOrder(us, special, order[..|order| - 1]) + (if IsWeight(us, special, h) then [h] else [])
  }

  /** The table lists its own keys. */
  ghost predicate Listed(t: Table)
  {
    forall i :: 0 <= i < |t.order| ==> t.order[i] in t.bufs
  }

  /** The table holds exactly the handles of `us`, listed once each in
      first-use order. */
  ghost predicate Covers(us: seq<Use>, t: Table)
  {
    && t.bufs.Keys == Handles(us)
    && Listed(t)
    && (forall h :: h in t.bufs ==> h in t.order)
    && (forall i, j :: 0 <= i < j < |t.order| ==> FirstUse(us, t.order[i]) < FirstUse(us, t.order[j]))
  }

  /** Every entry is sized `len // 4`, whatever its kind. */
  ghost predicate Sizes(buffers: map<int, Buffer>, t: Table)
  {
    forall h :: h in t.bufs ==> h in buffers && t.bufs[h].size == buffers[h].len / 4
  }

  /** Special entries carry their special name; the others are named
      `buf_0`, `buf_1`, ... in table order, and `bufnum` counts them. */
  ghost predicate Names(special: map<int, string>, t: Table)
    requires Listed(t)
  {
    && (forall h :: h in t.bufs && h in special ==> t.bufs[h].name == special[h])
    && t.bufnum == |Generated(t.order, special)|
    && NamedBy(t.bufs, Generated(t.order, special), GenName)
  }

  /** `bufs` names the `j`-th handle of `g` as `nameOf(j)`. */
  ghost predicate NamedBy(bufs: map<int, Entry>, g: seq<int>, nameOf: nat -> string)
  {
    forall j :: 0 <= j < |g| ==> g[j] in bufs && bufs[g[j]].name == nameOf(j)
  }

  /** The saved list is exactly the weights, in table order, each under its
      table name. */
  ghost predicate SavesWeights(us: seq<Use>, special: map<int, string>, t: Table)
    requires Listed(t)
  {
    && |t.toSave| == |WeightOrder(us, special, t.order)|
    && (forall j :: 0 <= j < |t.toSave| ==>
          t.toSave[j].handle == WeightOrder(us, special, t.order)[j] &&
          t.toSave[j].name == t.bufs[t.toSave[j].handle].name)
  }

  /** Every non-special handle of `order` is among the generated ones. */
  lemma {:induction false} GeneratedComplete(order: seq<int>, special: map<int, string>)
    ensures forall i :: 0 <= i < |order| && order[i] !in special ==> order[i] in Generated(order, special)
    decreases |order|
  {
    if order != [] {
      var n := |order| - 1;
      GeneratedComplete(order[..n], special);
      assert forall i :: 0 <= i < n ==> order[..n][i] == order[i];
    }
  }

  /** Every weight of `order` is in the weight order. */
  lemma {:induction false} WeightOrderComplete(us: seq<Use>, special: map<int, string>, order: seq<int>)
    ensures forall i :: 0 <= i < |order| && IsWeight(us, special, order[i]) ==> order[i] in WeightOrder(us, special, order)
    decreases |order|
  {
    if order != [] {
      var n := |order| - 1;
      WeightOrderComplete(us, special, order[..n]);
      assert forall i :: 0 <= i < n ==> order[..n][i] == order[i];
    }
  }

  /** What the table built from `us` satisfies. */
  ghost predicate Consistent(us: seq<Use>, buffers: map<int, Buffer>, special: map<int, string>, t: Table)
  {
    Covers(us, t) && Sizes(buffers, t) && Names(special, t) && SavesWeights(us, special, t)
  }

  lemma HandlesSnoc(us: seq<Use>, u: Use)
    ensures Handles(us + [u]) == Handles(us) + {u.handle}
  {
    var vs := us + [u];
    assert forall j :: 0 <= j < |us| ==> vs[j] == us[j];
    assert vs[|us|] == u;
  }

  /** Appending a use does not move the first use of a handle already seen,
      and a new handle's first use is the appended one. */
  lemma FirstUseSnoc(us: seq<Use>, u: Use)
    ensures u.handle in Handles(us + [u])
    ensures forall h :: h in Handles(us) ==> h in Handles(us + [u]) && FirstUse(us + [u], h) == FirstUse(us, h)
    ensures u.handle !in Handles(us) ==> FirstUse(us + [u], u.handle) == |us|
  {
    HandlesSnoc(us, u);
    assert (us + [u])[..|us|] == us;
  }

  lemma {:induction false} WeightOrderSnoc(us: seq<Use>, u: Use, special: map<int, string>, order: seq<int>)
    requires forall i :: 0 <= i < |order| ==> order[i] in Handles(us)
    ensures WeightOrder(us + [u], special, order) == WeightOrder(us, special, order)
    decreases |order|
  {
    if order != [] {
      var n := |order| - 1;
      FirstUseSnoc(us, u);
      assert forall i :: 0 <= i < n ==> order[..n][i] == order[i];
      WeightOrderSnoc(us, u, special, order[..n]);
      assert IsWeight(us + [u], special, order[n]) == IsWeight(us, special, order[n]);
    }
  }

  /** The table with one more entry, as both new-entry branches of
      `Register` build it. */
  function Add(t: Table, key: int, e: Entry, bufnum: nat, toSave: seq<Saved>): (r: Table)
    ensures r.order == t.order + [key] && r.bufs == t.bufs[key := e]
  {
    Table(t.bufs[key := e], t.order + [key], bufnum, toSave)
  }

  /** A handle already in the table leaves it alone; a new one is added. */
  lemma RegisterCases(t: Table, u: Use, buffers: map<int, Buffer>, special: map<int, string>)
    requires u.handle in buffers
    ensures var key, size := u.handle, buffers[u.handle].len / 4;
      Register(t, u, buffers, special) ==
        if key in t.bufs then t
        else if key in special then Add(t, key, Entry(special[key], size), t.bufnum, t.toSave)
        else Add(t, key, Entry(GenName(t.bufnum), size), t.bufnum + 1,
                 if u.pos > 0 then t.toSave + [Saved(GenName(t.bufnum), key)] else t.toSave)
  {
  }

  lemma CoversKeep(us: seq<Use>, u: Use, t: Table)
    requires u.handle in t.bufs && Covers(us, t)
    ensures Covers(us + [u], t)
  {
    HandlesSnoc(us, u);
    FirstUseSnoc(us, u);
    assert forall i :: 0 <= i < |t.order| ==> t.order[i] in Handles(us);
  }

  lemma CoversAdd(us: seq<Use>, u: Use, t: Table, e: Entry, bufnum: nat, toSave: seq<Saved>)
    requires u.handle !in t.bufs && Covers(us, t)
    ensures Covers(us + [u], Add(t, u.handle, e, bufnum, toSave))
  {
    HandlesSnoc(us, u);
    FirstUseSnoc(us, u);
    var vs, key := us + [u], u.handle;
    var r := Add(t, key, e, bufnum, toSave);
    var order' := t.order + [key];
    assert r.bufs.Keys == t.bufs.Keys + {key};
    assert forall i :: 0 <= i < |t.order| ==> order'[i] == t.order[i] && t.order[i] in Handles(us);
    assert order'[|t.order|] == key;
    forall i, j | 0 <= i < j < |order'|
      ensures FirstUse(vs, order'[i]) < FirstUse(vs, order'[j])
    {
      if j == |t.order| {
        assert FirstUse(vs, order'[i]) == FirstUse(us, t.order[i]) < |us|;
      }
    }
  }

  lemma RegisterCovers(us: seq<Use>, u: Use, buffers: map<int, Buffer>, special: map<int, string>, t: Table)
    requires u.handle in buffers && Covers(us, t)
    ensures Covers(us + [u], Register(t, u, buffers, special))
  {
    RegisterCases(t, u, buffers, special);
    var key, size := u.handle, buffers[u.handle].len / 4;
    if key in t.bufs {
      CoversKeep(us, u, t);
    } else if key in special {
      CoversAdd(us, u, t, Entry(special[key], size), t.bufnum, t.toSave);
    } else {
      CoversAdd(us, u, t, Entry(GenName(t.bufnum), size), t.bufnum + 1,
                if u.pos > 0 then t.toSave + [Saved(GenName(t.bufnum), key)] else t.toSave);
    }
  }

  lemma RegisterSizes(u: Use, buffers: map<int, Buffer>, special: map<int, string>, t: Table)
    requires u.handle in buffers && Sizes(buffers, t)
    ensures Sizes(buffers, Register(t, u, buffers, special))
  {
  }

  lemma AddListed(t: Table, key: int, e: Entry, bufnum: nat, toSave: seq<Saved>)
    requires Listed(t)
    ensures Listed(Add(t, key, e, bufnum, toSave))
  {
    var order' := t.order + [key];
    assert forall i :: 0 <= i < |t.order| ==> order'[i] == t.order[i];
  }

  lemma RegisterListed(u: Use, buffers: map<int, Buffer>, special: map<int, string>, t: Table)
    requires u.handle in buffers && Listed(t)
    ensures Listed(Register(t, u, buffers, special))
  {
    RegisterCases(t, u, buffers, special);
    var key, size := u.handle, buffers[u.handle].len / 4;
    if key !in t.bufs {
      var r := Register(t, u, buffers, special);
      AddListed(t, key, r.bufs[key], r.bufnum, r.toSave);
    }
  }

  lemma GeneratedSnoc(order: seq<int>, h: int, special: map<int, string>)
    ensures Generated(order + [h], special) == Generated(order, special) + (if h in special then [] else [h])
  {
    assert (order + [h])[..|order|] == order;
  }

  /** Naming a new last handle `nameOf(|g|)` extends a table that names
      `g[j]` as `nameOf(j)`.  Stated for any naming scheme, the proof does
      not look inside the names. */
  lemma NamedInOrder(bufs: map<int, Entry>, g: seq<int>, key: int, e: Entry, nameOf: nat -> string)
    requires key !in bufs && e.name == nameOf(|g|) && NamedBy(bufs, g, nameOf)
    ensures NamedBy(bufs[key := e], g + [key], nameOf)
  {
    forall j | 0 <= j < |g| + 1
      ensures (g + [key])[j] in bufs[key := e] && bufs[key := e][(g + [key])[j]].name == nameOf(j)
    {
      if j < |g| {
        assert (g + [key])[j] == g[j];
      }
    }
  }

  /** A new key leaves the names of the old ones alone. */
  lemma NamedByGrow(bufs: map<int, Entry>, g: seq<int>, key: int, e: Entry, nameOf: nat -> string)
    requires key !in bufs && NamedBy(bufs, g, nameOf)
    ensures NamedBy(bufs[key := e], g, nameOf)
  {
  }

  lemma NamesSpecial(t: Table, key: int, e: Entry, special: map<int, string>)
    requires Listed(t) && Names(special, t)
    requires key !in t.bufs && key in special && e.name == special[key]
    ensures Listed(Add(t, key, e, t.bufnum, t.toSave))
    ensures Names(special, Add(t, key, e, t.bufnum, t.toSave))
  {
    AddListed(t, key, e, t.bufnum, t.toSave);
    GeneratedSnoc(t.order, key, special);
    NamedByGrow(t.bufs, Generated(t.order, special), key, e, GenName);
  }

  lemma NamesGenerated(t: Table, key: int, e: Entry, special: map<int, string>, toSave: seq<Saved>)
    requires Listed(t) && Names(special, t)
    requires key !in t.bufs && key !in special && e.name == GenName(t.bufnum)
    ensures Listed(Add(t, key, e, t.bufnum + 1, toSave))
    ensures Names(special, Add(t, key, e, t.bufnum + 1, toSave))
  {
    AddListed(t, key, e, t.bufnum + 1, toSave);
    GeneratedSnoc(t.order, key, special);
    NamedInOrder(t.bufs, Generated(t.order, special), key, e, GenName);
  }

  lemma RegisterNames(u: Use, buffers: map<int, Buffer>, special: map<int, string>, t: Table)
    requires u.handle in buffers && Listed(t) && Names(special, t)
    ensures Listed(Register(t, u, buffers, special))
    ensures Names(special, Register(t, u, buffers, special))
  {
    RegisterCases(t, u, buffers, special);
    var key, size := u.handle, buffers[u.handle].len / 4;
    if key in t.bufs {
    } else if key in special {
      NamesSpecial(t, key, Entry(special[key], size), special);
    } else {
      NamesGenerated(t, key, Entry(GenName(t.bufnum), size), special,
                     if u.pos > 0 then t.toSave + [Saved(GenName(t.bufnum), key)] else t.toSave);
    }
  }

  /** Appending a new saved entry keeps the saved list in step with the
      weight order. */
  lemma SaveOneMore(toSave: seq<Saved>, bufs: map<int, Entry>, w: seq<int>, key: int, e: Entry)
    requires key !in bufs
    requires |toSave| == |w| && forall j :: 0 <= j < |w| ==> w[j] in bufs
    requires forall j :: 0 <= j < |toSave| ==> toSave[j].handle == w[j] && toSave[j].name == bufs[toSave[j].handle].name
    ensures var s', b', w' := toSave + [Saved(e.name, key)], bufs[key := e], w + [key];
      forall j :: 0 <= j < |s'| ==> s'[j].handle == w'[j] && s'[j].name == b'[s'[j].handle].name
  {
  }

  /** The weight order over the old keys does not change when a use is
      appended. */
  lemma SavesSnoc(us: seq<Use>, u: Use, special: map<int, string>, t: Table)
    requires Listed(t) && t.bufs.Keys == Handles(us)
    ensures WeightOrder(us + [u], special, t.order) == WeightOrder(us, special, t.order)
    ensures forall j :: 0 <= j < |WeightOrder(us, special, t.order)| ==> WeightOrder(us, special, t.order)[j] in t.bufs
  {
    assert forall i :: 0 <= i < |t.order| ==> t.order[i] in Handles(us);
    WeightOrderSnoc(us, u, special, t.order);
  }

  lemma SavesKeep(us: seq<Use>, u: Use, special: map<int, string>, t: Table)
    requires u.handle in t.bufs && Listed(t) && t.bufs.Keys == Handles(us) && SavesWeights(us, special, t)
    ensures SavesWeights(us + [u], special, t)
  {
    SavesSnoc(us, u, special, t);
  }

  /** A new handle is a weight of the longer list exactly when it is not
      special and its first position is not 0. */
  lemma NewWeight(us: seq<Use>, u: Use, special: map<int, string>, t: Table)
    requires u.handle !in t.bufs && Listed(t) && t.bufs.Keys == Handles(us)
    ensures WeightOrder(us + [u], special, t.order + [u.handle])
      == WeightOrder(us, special, t.order) + (if u.handle !in special && u.pos > 0 then [u.handle] else [])
  {
    var vs := us + [u];
    var order' := t.order + [u.handle];
    SavesSnoc(us, u, special, t);
    assert order'[..|t.order|] == t.order;
    FirstUseSnoc(us, u);
    assert FirstUse(vs, u.handle) == |us| && vs[|us|] == u;
    assert IsWeight(vs, special, u.handle) == (u.handle !in special && u.pos > 0);
  }

  lemma SavesAddWeight(us: seq<Use>, u: Use, special: map<int, string>, t: Table, e: Entry, bufnum: nat)
    requires u.handle !in t.bufs && Listed(t) && t.bufs.Keys == Handles(us) && SavesWeights(us, special, t)
    requires u.handle !in special && u.pos > 0
    ensures SavesWeights(us + [u], special, Add(t, u.handle, e, bufnum, t.toSave + [Saved(e.name, u.handle)]))
  {
    NewWeight(us, u, special, t);
    SavesSnoc(us, u, special, t);
    var w := WeightOrder(us, special, t.order);
    AddListed(t, u.handle, e, bufnum, t.toSave + [Saved(e.name, u.handle)]);
    SaveOneMore(t.toSave, t.bufs, w, u.handle, e);
  }

  lemma SavesAddOther(us: seq<Use>, u: Use, special: map<int, string>, t: Table, e: Entry, bufnum: nat)
    requires u.handle !in t.bufs && Listed(t) && t.bufs.Keys == Handles(us) && SavesWeights(us, special, t)
    requires u.handle in special || u.pos == 0
    ensures SavesWeights(us + [u], special, Add(t, u.handle, e, bufnum, t.toSave))
  {
    NewWeight(us, u, special, t);
    SavesSnoc(us, u, special, t);
    AddListed(t, u.handle, e, bufnum, t.toSave);
    var w := WeightOrder(us, special, t.order);
    var r := Add(t, u.handle, e, bufnum, t.toSave);
    forall j | 0 <= j < |r.toSave|
      ensures r.toSave[j].name == r.bufs[r.toSave[j].handle].name
    {
      assert w[j] in t.bufs;
    }
  }

  lemma RegisterSaves(us: seq<Use>, u: Use, buffers: map<int, Buffer>, special: map<int, string>, t: Table)
    requires u.handle in buffers && Listed(t) && t.bufs.Keys == Handles(us) && SavesWeights(us, special, t)
    ensures Listed(Register(t, u, buffers, special))
    ensures SavesWeights(us + [u], special, Register(t, u, buffers, special))
  {
    RegisterListed(u, buffers, special, t);
    RegisterCases(t, u, buffers, special);
    var key, size := u.handle, buffers[u.handle].len / 4;
    if key in t.bufs {
      SavesKeep(us, u, special, t);
    } else if key in special {
      SavesAddOther(us, u, special, t, Entry(special[key], size), t.bufnum);
    } else if u.pos > 0 {
      SavesAddWeight(us, u, special, t, Entry(GenName(t.bufnum), size), t.bufnum + 1);
    } else {
      SavesAddOther(us, u, special, t, Entry(GenName(t.bufnum), size), t.bufnum + 1);
    }
  }

  lemma RegisterConsistent(us: seq<Use>, u: Use, buffers: map<int, Buffer>,
                           special: map<int, string>, t: Table)
    requires u.handle in buffers
    requires Consistent(us, buffers, special, t)
    ensures Consistent(us + [u], buffers, special, Register(t, u, buffers, special))
  {
    RegisterSizes(u, buffers, special, t);
    RegisterNames(u, buffers, special, t);
    assert Names(special, Register(t, u, buffers, special));
    RegisterCovers(us, u, buffers, special, t);
    RegisterSaves(us, u, buffers, special, t);
  }

  /** The fold keeps its invariant. */
  lemma {:induction false} ResolveConsistent(us: seq<Use>, buffers: map<int, Buffer>, special: map<int, string>)
    requires UsesIn(us, buffers)
    ensures Consistent(us, buffers, special, Resolve(us, buffers, special))
    decreases |us|
  {
    if us != [] {
      var n := |us| - 1;
      assert us == us[..n] + [us[n]];
      ResolveConsistent(us[..n], buffers, special);
      RegisterConsistent(us[..n], us[n], buffers, special, Resolve(us[..n], buffers, special));
    }
  }

  // ---------------------------------------------------------------------
  // What the table of a whole jit cache satisfies
  // ---------------------------------------------------------------------

  lemma ResolveNetConsistent(jit: seq<Invocation>, buffers: map<int, Buffer>, special: map<int, string>)
    requires Sized(jit, buffers)
    ensures UsesIn(Uses(jit), buffers)
    ensures Consistent(Uses(jit), buffers, special, ResolveNet(jit, buffers, special))
  {
    UsesSized(jit, buffers);
    ResolveConsistent(Uses(jit), buffers, special);
  }

  /** `inv` passes `h` at a position that is not deleted. */
  ghost predicate LiveIn(inv: Invocation, h: int)
  {
    exists p :: 0 <= p < |inv.args| && p !in inv.deleted && inv.args[p] == h
  }

  /** Some invocation of the jit cache passes `h` at a live position. */
  ghost predicate Live(jit: seq<Invocation>, h: int)
  {
    exists k :: 0 <= k < |jit| && LiveIn(jit[k], h)
  }

  lemma HandlesConcat(a: seq<Use>, b: seq<Use>)
    ensures Handles(a + b) == Handles(a) + Handles(b)
  {
    var c := a + b;
    assert forall j :: 0 <= j < |a| ==> c[j] == a[j];
    assert forall j :: 0 <= j < |b| ==> c[|a| + j] == b[j];
    forall h | h in Handles(c) ensures h in Handles(a) + Handles(b)
    {
      var j :| 0 <= j < |c| && c[j].handle == h;
      if j >= |a| { assert b[j - |a|].handle == h; }
    }
  }

  lemma SurvivorHandles(inv: Invocation)
    ensures forall h :: h in Handles(Survivors(inv)) <==> LiveIn(inv, h)
  {
    var s := Survivors(inv);
    SurvivingSpec(inv.args, inv.deleted, |inv.args|);
    forall h ensures h in Handles(s) <==> LiveIn(inv, h)
    {
      if h in Handles(s) {
        var j :| 0 <= j < |s| && s[j].handle == h;
        assert inv.args[s[j].pos] == h;
      }
      if LiveIn(inv, h) {
        var p :| 0 <= p < |inv.args| && p !in inv.deleted && inv.args[p] == h;
        var j :| 0 <= j < |s| && s[j].pos == p;
        assert s[j].handle == h;
      }
    }
  }

  /** The handles of the flat use list are exactly the live handles. */
  lemma {:induction false} HandlesOfUses(jit: seq<Invocation>)
    ensures forall h :: h in Handles(Uses(jit)) <==> Live(jit, h)
    decreases |jit|
  {
    if jit != [] {
      var n := |jit| - 1;
      var prefix := jit[..n];
      HandlesOfUses(prefix);
      HandlesConcat(Uses(prefix), Survivors(jit[n]));
      SurvivorHandles(jit[n]);
      forall h ensures Live(jit, h) <==> Live(prefix, h) || LiveIn(jit[n], h)
      {
        if Live(jit, h) {
          var k :| 0 <= k < |jit| && LiveIn(jit[k], h);
          if k < n { assert prefix[k] == jit[k]; }
        }
        if Live(prefix, h) {
          var k :| 0 <= k < n && LiveIn(prefix[k], h);
          assert prefix[k] == jit[k];
        }
      }
    }
  }

  /** Every live buffer is in the table exactly once: the keys of `bufs`
      are the live handles, and the key order lists each of them once, in
      order of first surviving use. */
  lemma TableEntries(jit: seq<Invocation>, buffers: map<int, Buffer>, special: map<int, string>)
    requires Sized(jit, buffers)
    ensures var t := ResolveNet(jit, buffers, special);
      && t.bufs.Keys == Handles(Uses(jit))
      && (forall h :: h in t.bufs <==> Live(jit, h))
      && Listed(t)
      && (forall h :: h in t.bufs ==> h in t.order)
      && (forall i, j :: 0 <= i < j < |t.order| ==> t.order[i] != t.order[j])
      && (forall i, j :: 0 <= i < j < |t.order| ==> FirstUse(Uses(jit), t.order[i]) < FirstUse(Uses(jit), t.order[j]))
  {
    ResolveNetConsistent(jit, buffers, special);
    HandlesOfUses(jit);
  }

  /** The generated handles are exactly the non-special table entries. */
  lemma GeneratedExactly(jit: seq<Invocation>, buffers: map<int, Buffer>, special: map<int, string>)
    requires Sized(jit, buffers)
    ensures var t := ResolveNet(jit, buffers, special);
      forall h :: h in Generated(t.order, special) <==> h in t.bufs && h !in special
  {
    var t := ResolveNet(jit, buffers, special);
    var g := Generated(t.order, special);
    ResolveNetConsistent(jit, buffers, special);
    GeneratedComplete(t.order, special);
    forall h | h in t.bufs && h !in special
      ensures h in g
    {
      var i :| 0 <= i < |t.order| && t.order[i] == h;
    }
  }

  /** The counter ends equal to the number of non-special entries, so a
      special entry never advances it. */
  lemma CounterCount(jit: seq<Invocation>, buffers: map<int, Buffer>, special: map<int, string>)
    requires Sized(jit, buffers)
    ensures var t := ResolveNet(jit, buffers, special);
      t.bufnum == |Generated(t.order, special)|
  {
    ResolveNetConsistent(jit, buffers, special);
  }

  /** The non-special entries, in first-seen order, are named `buf_0`,
      `buf_1`, ... */
  lemma GeneratedNames(jit: seq<Invocation>, buffers: map<int, Buffer>, special: map<int, string>)
    requires Sized(jit, buffers)
    ensures var t := ResolveNet(jit, buffers, special);
      var g := Generated(t.order, special);
      forall j :: 0 <= j < |g| ==> g[j] in t.bufs && t.bufs[g[j]].name == GenName(j)
  {
    ResolveNetConsistent(jit, buffers, special);
  }

  /** A special entry carries the caller's name for it. */
  lemma SpecialNames(jit: seq<Invocation>, buffers: map<int, Buffer>, special: map<int, string>)
    requires Sized(jit, buffers)
    ensures var t := ResolveNet(jit, buffers, special);
      forall h :: h in t.bufs && h in special ==> t.bufs[h].name == special[h]
  {
    ResolveNetConsistent(jit, buffers, special);
  }

  /** No two non-special entries share a name. */
  lemma GeneratedDistinct(jit: seq<Invocation>, buffers: map<int, Buffer>, special: map<int, string>)
    requires Sized(jit, buffers)
    ensures var t := ResolveNet(jit, buffers, special);
      forall h1, h2 :: h1 in t.bufs && h2 in t.bufs && h1 !in special && h2 !in special && h1 != h2 ==>
        t.bufs[h1].name != t.bufs[h2].name
  {
    var t := ResolveNet(jit, buffers, special);
    var g := Generated(t.order, special);
    GeneratedExactly(jit, buffers, special);
    GeneratedNames(jit, buffers, special);
    forall h1, h2 | h1 in t.bufs && h2 in t.bufs && h1 !in special && h2 !in special && h1 != h2
      ensures t.bufs[h1].name != t.bufs[h2].name
    {
      var j1 :| 0 <= j1 < |g| && g[j1] == h1;
      var j2 :| 0 <= j2 < |g| && g[j2] == h2;
      GenNameInjective(j1, j2);
    }
  }

  /** Size rule: every entry, special or not, has `len // 4` elements;
      a length that is not a multiple of 4 is rounded down, not refused. */
  lemma SizeRule(jit: seq<Invocation>, buffers: map<int, Buffer>, special: map<int, string>)
    requires Sized(jit, buffers)
    ensures var t := ResolveNet(jit, buffers, special);
      forall h :: h in t.bufs ==> h in buffers && t.bufs[h].size == buffers[h].len / 4
  {
    ResolveNetConsistent(jit, buffers, special);
  }

  /** The handles held by a saved list. */
  function SavedHandles(toSave: seq<Saved>): set<int>
  {
    set j | 0 <= j < |toSave| :: toSave[j].handle
  }

  /** Weight rule: a buffer is saved exactly when it is not special and its
      first surviving use is at a position greater than 0; the saved list
      follows the table's first-seen order, each item under the buffer's
      table name. */
  lemma WeightRule(jit: seq<Invocation>, buffers: map<int, Buffer>, special: map<int, string>)
    requires Sized(jit, buffers)
    ensures var t := ResolveNet(jit, buffers, special);
      && (forall h :: h in SavedHandles(t.toSave) <==> IsWeight(Uses(jit), special, h))
      && |t.toSave| == |WeightOrder(Uses(jit), special, t.order)|
      && (forall j :: 0 <= j < |t.toSave| ==>
            t.toSave[j].handle == WeightOrder(Uses(jit), special, t.order)[j] &&
            t.toSave[j].handle in t.bufs &&
            t.toSave[j].name == t.bufs[t.toSave[j].handle].name)
  {
    var t := ResolveNet(jit, buffers, special);
    var us := Uses(jit);
    var w := WeightOrder(us, special, t.order);
    ResolveNetConsistent(jit, buffers, special);
    WeightOrderComplete(us, special, t.order);
    forall j | 0 <= j < |t.toSave|
      ensures t.toSave[j].handle in t.bufs
    {
      assert w[j] in t.order;
    }
    forall h | IsWeight(us, special, h)
      ensures h in SavedHandles(t.toSave)
    {
      assert h in t.bufs;
      var i :| 0 <= i < |t.order| && t.order[i] == h;
      var j :| 0 <= j < |w| && w[j] == h;
      assert t.toSave[j].handle == h;
    }
  }

  /** No special name has the shape of a generated `buf_<n>` name. */
  ghost predicate SpecialNamesFresh(special: map<int, string>)
  {
    forall h, n: nat :: h in special ==> special[h] != GenName(n)
  }

  /** Distinct special handles have distinct special names. */
  ghost predicate SpecialInjective(special: map<int, string>)
  {
    forall h1, h2 :: h1 in special && h2 in special && h1 != h2 ==> special[h1] != special[h2]
  }

  /** Naming is injective whenever the caller's special names are distinct
      and none looks like a generated name. */
  lemma NamingInjective(jit: seq<Invocation>, buffers: map<int, Buffer>, special: map<int, string>)
    requires Sized(jit, buffers)
    requires SpecialNamesFresh(special) && SpecialInjective(special)
    ensures var t := ResolveNet(jit, buffers, special);
      forall h1, h2 :: h1 in t.bufs && h2 in t.bufs && h1 != h2 ==> t.bufs[h1].name != t.bufs[h2].name
  {
    var t := ResolveNet(jit, buffers, special);
    var g := Generated(t.order, special);
    GeneratedExactly(jit, buffers, special);
    GeneratedNames(jit, buffers, special);
    SpecialNames(jit, buffers, special);
    GeneratedDistinct(jit, buffers, special);
    forall h1, h2 | h1 in t.bufs && h2 in t.bufs && h1 != h2
      ensures t.bufs[h1].name != t.bufs[h2].name
    {
      if h1 in special && h2 !in special {
        var j :| 0 <= j < |g| && g[j] == h2;
        assert t.bufs[h2].name == GenName(j);
      } else if h1 !in special && h2 in special {
        var j :| 0 <= j < |g| && g[j] == h1;
        assert t.bufs[h1].name == GenName(j);
      }
    }
  }
}
