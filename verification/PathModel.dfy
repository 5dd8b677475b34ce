/** Path names: minixfs/path.c as a fold over the components of the name. */
module PathModel {
  import opened Machine
  import opened InodeModel

  const SLASH: bv8 := 47
  const ROOT_INODE: nat := 1

  // Position of the first '/', or the end: what strstr(name, "/") - name gives.
  function FirstSlash(name: seq<bv8>): (i: nat)
    ensures i <= |name| && SLASH !in name[..i] && (i < |name| ==> name[i] == SLASH)
  {
    if name == [] || name[0] == SLASH then 0 else 1 + FirstSlash(name[1..])
  }

  // The rest of the name after its first component and the slash behind it.
  function Rest(name: seq<bv8>): (r: seq<bv8>)
    requires name != []
    ensures |r| < |name|
  {
    var i := FirstSlash(name);
    if i < |name| then name[i + 1..] else []
  }

  // The walk of name_to_inode from a working inode.
  function Walk(fs: Fs, work: nat, name: seq<bv8>): (r: Option<nat>)
    requires work < U16
    ensures r.Some? ==> r.value < U16
    decreases |name|
  {
    if name == [] then Some(work)
    else
      var node :- fs.ReadInode(work);
      var next :- Search(fs.vol, node, name[..FirstSlash(name)]);
      Walk(fs, next, Rest(name))
  }

  // ----- The reference: split into components, then fold -----

  function Components(name: seq<bv8>): seq<seq<bv8>>
    decreases |name|
  {
    if name == [] then [] else [name[..FirstSlash(name)]] + Components(Rest(name))
  }

  // One step of the fold: from a directory inode to the inode its first matching entry names.
  function Child(fs: Fs, work: nat, comp: seq<bv8>): (r: Option<nat>)
    requires work < U16
    ensures r.Some? ==> r.value < U16
  {
    var node :- fs.ReadInode(work);
    Search(fs.vol, node, comp)
  }

  function FoldLeft(fs: Fs, work: Option<nat>, comps: seq<seq<bv8>>): (r: Option<nat>)
    requires work.Some? ==> work.value < U16
    ensures r.Some? ==> r.value < U16
    decreases |comps|
  {
    if comps == [] || work.None? then work
    else FoldLeft(fs, Child(fs, work.value, comps[0]), comps[1..])
  }

  /** name_to_inode's walk is the left fold of directory search over the components of the name. */
  lemma {:induction false} WalkIsFold(fs: Fs, work: nat, name: seq<bv8>)
    requires work < U16
    ensures Walk(fs, work, name) == FoldLeft(fs, Some(work), Components(name))
    decreases |name|
  {
    if name != [] {
      var comp, comps := name[..FirstSlash(name)], Components(name);
      assert comps[0] == comp && comps[1..] == Components(Rest(name));
      var next := Child(fs, work, comp);
      if next.Some? { WalkIsFold(fs, next.value, Rest(name)); }
    }
  }

  function Join(comps: seq<seq<bv8>>): seq<bv8> {
    if comps == [] then []
    else if |comps| == 1 then comps[0]
    else comps[0] + [SLASH] + Join(comps[1..])
  }

  /** The components are the name cut at its slashes: none contains a slash, and joining them gives the name
      back, up to one slash at its end. */
  lemma {:induction false} ComponentsAreTheName(name: seq<bv8>)
    ensures forall c :: c in Components(name) ==> SLASH !in c
    ensures Join(Components(name)) == name || Join(Components(name)) + [SLASH] == name
    decreases |name|
  {
    if name != [] {
      var i, rest := FirstSlash(name), Rest(name);
      ComponentsAreTheName(rest);
      JoinCons(name[..i], Components(rest));
      NameCut(name, i, rest, Join(Components(rest)));
    }
  }

  lemma NameCut(name: seq<bv8>, i: nat, rest: seq<bv8>, joined: seq<bv8>)
    requires i <= |name| && (i < |name| ==> name[i] == SLASH)
    requires rest == (if i < |name| then name[i + 1..] else [])
    requires joined == rest || joined + [SLASH] == rest
    ensures i < |name| ==> name == name[..i] + [SLASH] + rest
    ensures i == |name| ==> name == name[..i]
    ensures i < |name| && joined + [SLASH] == rest ==> name[..i] + [SLASH] + joined + [SLASH] == name
  {
  }

  lemma JoinCons(comp: seq<bv8>, comps: seq<seq<bv8>>)
    ensures Join([]) == []
    ensures Join([comp] + comps) == if comps == [] then comp else comp + [SLASH] + Join(comps)
  {
  }
}
