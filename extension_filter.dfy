/**
 * The artifact exclusion filter of Druid's extension loading: of the
 * artifacts that resolving one extension coordinate yields, those whose
 * group id belongs to the host framework are left off the extension's
 * class path, so that an extension cannot shadow the host's own classes.
 */
module ExtensionFilter {

  /** The location of an artifact's file, as handed to the class loader. */
  type Url = string

  /** A resolved artifact: its Maven group and artifact ids and its local file. */
  datatype Artifact = Artifact(groupId: string, artifactId: string, file: Url)

  /** Group ids of the host framework. Matching is exact list membership, not prefix. */
  const Exclusions: seq<string> := ["io.druid", "com.metamx.druid"]

  predicate IsExcluded(a: Artifact)
  {
    a.groupId in Exclusions
  }

  /** The artifacts that reach the class path, in the resolver's order. */
  function Kept(artifacts: seq<Artifact>): seq<Artifact>
  {
    if artifacts == [] then []
    else
      var last := artifacts[|artifacts| - 1];
      Kept(artifacts[..|artifacts| - 1]) + (if IsExcluded(last) then [] else [last])
  }

  /** The file locations of the given artifacts, in order. */
  function Files(artifacts: seq<Artifact>): seq<Url>
  {
    seq(|artifacts|, i requires 0 <= i < |artifacts| => artifacts[i].file)
  }

  /** The loop of addExtensionModules that collects the URLs of the artifacts not excluded. */
  method ExtensionClassPath(artifacts: seq<Artifact>) returns (urls: seq<Url>)
    ensures urls == Files(Kept(artifacts))
  {
    urls := [];
    var i := 0;
    while i < |artifacts|
      invariant 0 <= i <= |artifacts|
      invariant urls == Files(Kept(artifacts[..i]))
    {
      var artifact := artifacts[i];
      assert artifacts[..i + 1][..i] == artifacts[..i];
      if !IsExcluded(artifact) {
        urls := urls + [artifact.file];
      }
      i := i + 1;
    }
    assert artifacts[..i] == artifacts;
  }

  /** An artifact reaches the class path exactly when it was resolved and its group is not excluded. */
  lemma {:induction false} KeptMembers(artifacts: seq<Artifact>, a: Artifact)
    ensures a in Kept(artifacts) <==> a in artifacts && !IsExcluded(a)
  {
    if artifacts != [] {
      var init := artifacts[..|artifacts| - 1];
      KeptMembers(init, a);
      assert artifacts == init + [artifacts[|artifacts| - 1]];
    }
  }

  /** Filtering commutes with concatenation: the resolver's order is preserved. */
  lemma {:induction false} KeptConcat(s: seq<Artifact>, t: seq<Artifact>)
    ensures Kept(s + t) == Kept(s) + Kept(t)
  {
    if t == [] {
      assert s + t == s;
    } else {
      var init := t[..|t| - 1];
      assert (s + t)[..|s + t| - 1] == s + init;
      assert (s + t)[|s + t| - 1] == t[|t| - 1];
      KeptConcat(s, init);
    }
  }

  /** Filtering an already filtered list changes nothing. */
  lemma {:induction false} KeptIdempotent(artifacts: seq<Artifact>)
    ensures Kept(Kept(artifacts)) == Kept(artifacts)
  {
    if artifacts != [] {
      var init := artifacts[..|artifacts| - 1];
      var last := artifacts[|artifacts| - 1];
      var tail := if IsExcluded(last) then [] else [last];
      KeptIdempotent(init);
      KeptConcat(Kept(init), tail);
      assert tail == [] || [last][..0] == [];
    }
  }

  /** A single artifact is kept exactly when its group is not excluded. */
  lemma KeptSingle(a: Artifact)
    ensures Kept([a]) == if IsExcluded(a) then [] else [a]
  {
    assert [a][..0] == [];
  }

  /** Of a host artifact and an extension artifact, only the extension's file reaches the class path. */
  lemma HostArtifactDropped(host: Artifact, extension: Artifact)
    requires IsExcluded(host) && !IsExcluded(extension)
    ensures Files(Kept([host, extension])) == [extension.file]
  {
    KeptSingle(host);
    KeptSingle(extension);
    KeptConcat([host], [extension]);
    assert [host] + [extension] == [host, extension];
  }

  /** Membership is exact: a group id that merely starts with a host group id is kept. */
  lemma SubGroupOfHostIsKept(a: Artifact)
    requires a.groupId == "io.druid.extensions"
    ensures Kept([a]) == [a]
  {
    KeptSingle(a);
  }
}
