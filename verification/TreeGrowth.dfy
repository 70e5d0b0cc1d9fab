/** Adding an entry keeps the tree a tree (libvdf/file.c, `create_file`). */
module TreeGrowth {
  import opened FileTree

  function GrowLinks(links: seq<Links>, p: int, isDir: bool): seq<Links>
    requires 0 <= p < |links|
  {
    links[p := links[p].(entries := links[p].entries + [|links|])] + [Links(p, isDir, [])]
  }

  /** Everything at or above the parent gains the new file. */
  ghost function GrowRepr(repr: seq<set<int>>, p: int): (r: seq<set<int>>)
    ensures |r| == |repr| + 1
  {
    seq(|repr| + 1, d requires 0 <= d <= |repr| =>
          if d == |repr| then {d} else if p in repr[d] then repr[d] + {|repr|} else repr[d])
  }

  lemma NewIsNew(links: seq<Links>, repr: seq<set<int>>, c: int)
    requires TreeOk(links, repr) && 0 <= c < |links|
    ensures |links| !in repr[c]
  {
    assert NodeOk(links, repr, c);
    assert |links| in repr[c] ==> Within(repr, c, |links|);
  }

  lemma GrownWithin(links: seq<Links>, repr: seq<set<int>>, p: int, d: int, x: int)
    requires TreeOk(links, repr) && 0 <= p < |links| && 0 <= d < |links|
    requires x in GrowRepr(repr, p)[d]
    ensures Within(GrowRepr(repr, p), d, x)
  {
    assert NodeOk(links, repr, d);
    if x != |links| {
      assert Within(repr, d, x);
    }
  }

  lemma GrownEntry(links: seq<Links>, repr: seq<set<int>>, p: int, isDir: bool, d: int, k: int)
    requires TreeOk(links, repr) && 0 <= p < |links| && 0 <= d < |links|
    requires 0 <= k < |GrowLinks(links, p, isDir)[d].entries|
    ensures EntryOk(GrowLinks(links, p, isDir), GrowRepr(repr, p), d, GrowLinks(links, p, isDir)[d].entries[k])
  {
    assert NodeOk(links, repr, d);
    if k < |links[d].entries| {
      assert EntryOk(links, repr, d, links[d].entries[k]);
    }
  }

  lemma GrownApart(links: seq<Links>, repr: seq<set<int>>, p: int, isDir: bool, d: int, j: int, k: int)
    requires TreeOk(links, repr) && 0 <= p < |links| && 0 <= d < |links|
    requires 0 <= j < k < |GrowLinks(links, p, isDir)[d].entries|
    ensures
      var es := GrowLinks(links, p, isDir)[d].entries;
      Apart(GrowRepr(repr, p), es[j], es[k])
  {
    var es := links[d].entries;
    assert NodeOk(links, repr, d);
    assert EntryOk(links, repr, d, es[j]);
    if k < |es| {
      assert EntryOk(links, repr, d, es[k]);
      assert Apart(repr, es[j], es[k]);
      NewIsNew(links, repr, es[k]);
    }
    NewIsNew(links, repr, es[j]);
  }

  lemma GrownChild(links: seq<Links>, repr: seq<set<int>>, p: int, isDir: bool, d: int, x: int)
    requires TreeOk(links, repr) && 0 <= p < |links| && 0 <= d < |links|
    requires x in GrowRepr(repr, p)[d] && x != d
    ensures InChild(GrowLinks(links, p, isDir), GrowRepr(repr, p), d, x)
  {
    var n, es := |links|, links[d].entries;
    var es' := GrowLinks(links, p, isDir)[d].entries;
    assert NodeOk(links, repr, d);
    if x == n && p == d {
      assert es'[|es|] == n;
    } else if x == n && x !in repr[d] {
      assert InChild(links, repr, d, p);
      var k :| 0 <= k < |es| && 0 <= es[k] < |repr| && p in repr[es[k]];
      assert es'[k] == es[k];
    } else {
      assert InChild(links, repr, d, x);
      var k :| 0 <= k < |es| && 0 <= es[k] < |repr| && x in repr[es[k]];
      assert es'[k] == es[k];
    }
  }

  lemma GrownNode(links: seq<Links>, repr: seq<set<int>>, p: int, isDir: bool, d: int)
    requires TreeOk(links, repr) && 0 <= p < |links| && links[p].isDir && 0 <= d <= |links|
    ensures NodeOk(GrowLinks(links, p, isDir), GrowRepr(repr, p), d)
  {
    var links', repr' := GrowLinks(links, p, isDir), GrowRepr(repr, p);
    var es' := links'[d].entries;
    if d < |links| {
      assert NodeOk(links, repr, d);
      forall x {:trigger Within(repr', d, x)} | x in repr'[d] ensures Within(repr', d, x) {
        GrownWithin(links, repr, p, d, x);
      }
      forall k {:trigger EntryOk(links', repr', d, es'[k])} | 0 <= k < |es'| ensures EntryOk(links', repr', d, es'[k]) {
        GrownEntry(links, repr, p, isDir, d, k);
      }
      forall j, k {:trigger Apart(repr', es'[j], es'[k])} | 0 <= j < k < |es'| ensures Apart(repr', es'[j], es'[k]) {
        GrownApart(links, repr, p, isDir, d, j, k);
      }
      forall x {:trigger InChild(links', repr', d, x)} | x in repr'[d] && x != d ensures InChild(links', repr', d, x) {
        GrownChild(links, repr, p, isDir, d, x);
      }
    }
  }

  /** A file or directory added below an existing directory leaves a well-formed tree. */
  lemma GrownTree(links: seq<Links>, repr: seq<set<int>>, p: int, isDir: bool)
    requires TreeOk(links, repr) && 0 <= p < |links| && links[p].isDir
    ensures TreeOk(GrowLinks(links, p, isDir), GrowRepr(repr, p))
  {
    var links', repr' := GrowLinks(links, p, isDir), GrowRepr(repr, p);
    forall d {:trigger NodeOk(links', repr', d)} | 0 <= d < |links'| ensures NodeOk(links', repr', d) {
      GrownNode(links, repr, p, isDir, d);
    }
    assert p in repr[ROOT];
    forall x {:trigger ParentOk(links', x)} | 0 < x < |links'| ensures ParentOk(links', x) {
      if x < |links| {
        assert ParentOk(links, x);
      }
    }
  }
}
