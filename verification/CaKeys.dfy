/** The names of staged directories: sanitizePathToken and containerCADir of internal/nri/dynamic_ca.go. */
module CaKeys {
  import opened Options
  import opened Paths
  import opened Seqs

  predicate IsSafe(c: char) {
    'A' <= c <= 'Z' || 'a' <= c <= 'z' || '0' <= c <= '9' || c == '.' || c == '_' || c == '-'
  }

  predicate IsEdge(c: char) {
    c == '.' || c == '_' || c == '-'
  }

  function Replaced(s: string): (r: string)
    ensures |r| == |s| && forall i :: 0 <= i < |s| ==> r[i] == if IsSafe(s[i]) then s[i] else '_'
  {
    seq(|s|, i requires 0 <= i < |s| => if IsSafe(s[i]) then s[i] else '_')
  }

  function SanitizePathToken(v: string): string {
    Trim(Replaced(TrimSpace(v)), IsEdge)
  }

  /** containerCAKey */
  function ContainerCAKey(id: string): Option<string> {
    if SanitizePathToken(id) == "" then None else Some(SanitizePathToken(id))
  }

  /** Ids that name their directories as they are: safe characters, and none of ".", "_" and "-" at either end. */
  predicate IsClean(id: string) {
    (forall i :: 0 <= i < |id| ==> IsSafe(id[i])) && (id == "" || (!IsEdge(id[0]) && !IsEdge(id[|id| - 1])))
  }

  lemma {:induction false} TrimKeepsElements<T>(s: seq<T>, drop: T -> bool)
    ensures forall x :: x in Trim(s, drop) ==> x in s
    ensures Trim(s, drop) != [] ==> !drop(Trim(s, drop)[0]) && !drop(Trim(s, drop)[|Trim(s, drop)| - 1])
  {
    var l := TrimLeft(s, drop);
    TrimLeftIsSuffix(s, drop);
    TrimRightShrinks(l, drop);
    if Trim(s, drop) != [] {
      assert Trim(s, drop)[0] == l[0];
    }
  }

  lemma {:induction false} TrimLeftIsSuffix<T>(s: seq<T>, drop: T -> bool)
    ensures forall x :: x in TrimLeft(s, drop) ==> x in s
    ensures TrimLeft(s, drop) != [] ==> !drop(TrimLeft(s, drop)[0])
  {
    if s != [] && drop(s[0]) {
      TrimLeftIsSuffix(s[1..], drop);
    }
  }

  /**
   Whatever the container id, its key is clean, so the directory is a child of
   the CA root itself; and a clean id is its own key, so containers whose ids are
   clean and distinct have distinct keys. Hexadecimal ids are clean.
   */
  lemma KeysAreCleanNames(id: string)
    ensures IsClean(SanitizePathToken(id))
    ensures ContainerCAKey(id).Some? ==> IsName(ContainerCAKey(id).value)
    ensures SanitizePathToken(id) == id <==> IsClean(id)
  {
    var r := Replaced(TrimSpace(id));
    var k := SanitizePathToken(id);
    TrimKeepsElements(r, IsEdge);
    forall i | 0 <= i < |k| ensures IsSafe(k[i]) {
      assert k[i] in k && k[i] in r;
    }
    if k != "" {
      assert k[0] != '.';
      assert forall c :: c in k ==> IsSafe(c);
      assert '/' !in k;
    }
    if IsClean(id) {
      TrimKeeps(id, IsSpace);
      assert Replaced(id) == id;
      TrimKeeps(id, IsEdge);
    }
  }

  /** Which ids these are, character by character; in particular, what the runtimes hand out, hexadecimal numbers. */
  lemma OwnKeysExactly(id: string)
    ensures SanitizePathToken(id) == id
            <==> id == "" || (&& LetterOrDigit(id[0]) && LetterOrDigit(id[|id| - 1])
                              && forall i :: 0 <= i < |id| ==>
                                   LetterOrDigit(id[i]) || id[i] == '.' || id[i] == '_' || id[i] == '-')
    ensures id != "" && (forall i :: 0 <= i < |id| ==> '0' <= id[i] <= '9' || 'a' <= id[i] <= 'f') ==>
              ContainerCAKey(id) == Some(id)
  {
    hide SanitizePathToken;
    KeysAreCleanNames(id);
  }

  predicate LetterOrDigit(c: char) {
    '0' <= c <= '9' || 'A' <= c <= 'Z' || 'a' <= c <= 'z'
  }

  /** Without that, distinct ids can share a directory. */
  lemma KeysCanCollide()
    ensures "a/b" != "a_b" && ContainerCAKey("a/b") == ContainerCAKey("a_b") == Some("a_b")
  {
    KeysAreCleanNames("a_b");
    TrimKeeps("a/b", IsSpace);
    assert Replaced("a/b") == "a_b";
    TrimKeeps("a_b", IsEdge);
  }
}
