/** Segment names: the grammar "/shmfx." namespace "." leaf and its parser. */
module Names {
  import opened FixedNames

  const PREFIX: string := "/shmfx."
  const REGISTRY_NAME: string := "/shmfx.registry"
  const REGISTRY_LOCK_NAME: string := "/shmfx.registry.lock"

  datatype ParseResult =
    | Parsed(ns: string, leaf: string, bootstrap: bool)
    | InvalidName
    | PermissionDenied

  predicate Lower(c: char) {
    'a' <= c <= 'z'
  }

  predicate TailChar(c: char) {
    Lower(c) || '0' <= c <= '9' || c == '_' || c == '-'
  }

  predicate AllTail(s: string) {
    forall i :: 0 <= i < |s| ==> TailChar(s[i])
  }

  predicate NamespaceAllowed(ns: string) {
    ns == "log" || ns == "tlm" || ns == "kv" || ns == "app" || ns == "sys"
  }

  /** The index of the first '.' from `k` on, or the length. */
  function FindDot(s: string, k: nat): (i: nat)
    requires k <= |s|
    ensures k <= i <= |s|
    ensures i < |s| ==> s[i] == '.'
    ensures forall j :: k <= j < i ==> s[j] != '.'
    decreases |s| - k
  {
    if k == |s| || s[k] == '.' then k else FindDot(s, k + 1)
  }

  /** `parse_and_validate_name`. */
  function Parse(name: string): (r: ParseResult) {
    if name == REGISTRY_NAME || name == REGISTRY_LOCK_NAME then Parsed("", name, true)
    else if |name| >= NAME_BYTES || !(PREFIX <= name) then InvalidName
    else
      var dot := FindDot(name, |PREFIX|);
      if dot == |name| then InvalidName
      else
        var ns, leaf := name[|PREFIX|..dot], name[dot + 1..];
        if |ns| < 2 || |ns| > 15 || leaf == "" || |leaf| > 39 then InvalidName
        else if !Lower(ns[0]) || !Lower(leaf[0]) then InvalidName
        else if !AllTail(ns[1..]) || !AllTail(leaf[1..]) then InvalidName
        else if !NamespaceAllowed(ns) then PermissionDenied
        else Parsed(ns, leaf, false)
  }

  // ---------------------------------------------------------------- the grammar, independent of the parser

  /** A lower-case letter followed by tail characters, `lo` to `hi` characters in all. */
  predicate Label(s: string, lo: nat, hi: nat) {
    lo <= |s| <= hi && s != "" && Lower(s[0]) && AllTail(s)
  }

  predicate Grammatical(name: string, ns: string, leaf: string) {
    name == PREFIX + ns + "." + leaf && Label(ns, 2, 15) && Label(leaf, 1, 39)
  }

  predicate Bootstrap(name: string) {
    name == REGISTRY_NAME || name == REGISTRY_LOCK_NAME
  }

  /** The first dot of a grammatical name after the prefix ends the namespace. */
  lemma DotOf(name: string, ns: string, leaf: string)
    requires Grammatical(name, ns, leaf)
    ensures FindDot(name, |PREFIX|) == |PREFIX| + |ns|
    ensures name[|PREFIX|..|PREFIX| + |ns|] == ns && name[|PREFIX| + |ns| + 1..] == leaf
  {
    var dot := FindDot(name, |PREFIX|);
    assert name[|PREFIX| + |ns|] == '.';
    assert forall j :: 0 <= j < |ns| ==> name[|PREFIX| + j] == ns[j] && TailChar(ns[j]);
  }

  lemma TailOfLabel(s: string)
    requires s != "" && Lower(s[0])
    ensures AllTail(s) <==> AllTail(s[1..])
  {
    assert AllTail(s[1..]) ==> forall i :: 1 <= i < |s| ==> s[i] == s[1..][i - 1];
  }

  /** The name the parser splits is put together from its parts. */
  lemma SplitJoins(name: string, dot: nat)
    requires PREFIX <= name && |PREFIX| <= dot < |name| && name[dot] == '.'
    ensures name == PREFIX + name[|PREFIX|..dot] + "." + name[dot + 1..]
  {
    assert name[dot..dot + 1] == ".";
  }

  /** A name outside the two bootstrap ones parses to `ns` and `leaf` exactly when it is the grammar's name for them and
      the namespace is allowed: the split is unique and joins back to the name. */
  lemma ParsedIff(name: string, ns: string, leaf: string)
    ensures Parse(name) == Parsed(ns, leaf, false) <==> Grammatical(name, ns, leaf) && NamespaceAllowed(ns)
  {
    if Grammatical(name, ns, leaf) && NamespaceAllowed(ns) {
      NotBootstrap(name, ns, leaf);
      DotOf(name, ns, leaf);
      TailOfLabel(ns);
      TailOfLabel(leaf);
    }
    if Parse(name) == Parsed(ns, leaf, false) {
      SplitJoins(name, FindDot(name, |PREFIX|));
      TailOfLabel(ns);
      TailOfLabel(leaf);
    }
  }

  /** "registry" is the only label before the first dot of a bootstrap name, and it is not an allowed namespace. */
  lemma NotBootstrap(name: string, ns: string, leaf: string)
    requires Grammatical(name, ns, leaf) && NamespaceAllowed(ns)
    ensures !Bootstrap(name)
  {
    assert name[|PREFIX|] == ns[0];
    assert name[|PREFIX| + 1] == ns[1];
  }

  /** Every name the parser does not call invalid is grammatical. */
  lemma NotInvalid(name: string) returns (ns: string, leaf: string)
    requires !Bootstrap(name) && Parse(name) != InvalidName
    ensures Grammatical(name, ns, leaf)
  {
    var dot := FindDot(name, |PREFIX|);
    ns, leaf := name[|PREFIX|..dot], name[dot + 1..];
    SplitJoins(name, dot);
    TailOfLabel(ns);
    TailOfLabel(leaf);
  }

  /** A grammatical name is never invalid, and is denied exactly for its namespace. */
  lemma GrammaticalParse(name: string, ns: string, leaf: string)
    requires !Bootstrap(name) && Grammatical(name, ns, leaf)
    ensures Parse(name) == if NamespaceAllowed(ns) then Parsed(ns, leaf, false) else PermissionDenied
  {
    DotOf(name, ns, leaf);
    TailOfLabel(ns);
    TailOfLabel(leaf);
  }

  /** PermissionDenied means a grammatical name in a namespace that is not allowed; InvalidName means no grammatical
      reading at all. */
  lemma DeniedIff(name: string)
    requires !Bootstrap(name)
    ensures Parse(name) == PermissionDenied
       <==> exists ns, leaf :: Grammatical(name, ns, leaf) && !NamespaceAllowed(ns)
    ensures Parse(name) == InvalidName <==> !exists ns, leaf :: Grammatical(name, ns, leaf)
  {
    forall ns, leaf | Grammatical(name, ns, leaf)
      ensures Parse(name) == if NamespaceAllowed(ns) then Parsed(ns, leaf, false) else PermissionDenied
    {
      GrammaticalParse(name, ns, leaf);
    }
    if Parse(name) != InvalidName {
      var ns, leaf := NotInvalid(name);
    }
  }

  predicate NoNul(s: string) {
    forall i :: 0 <= i < |s| ==> s[i] != '\0'
  }

  lemma JoinNoNul(a: string, b: string)
    requires NoNul(a) && NoNul(b)
    ensures NoNul(a + b)
  {
  }

  lemma GrammaticalNoNul(name: string, ns: string, leaf: string)
    requires Grammatical(name, ns, leaf)
    ensures NoNul(name) && name != "" && |name| < NAME_BYTES
  {
    JoinNoNul(PREFIX, ns);
    JoinNoNul(PREFIX + ns, ".");
    JoinNoNul(PREFIX + ns + ".", leaf);
  }

  lemma BootstrapNoNul(name: string)
    requires Bootstrap(name)
    ensures NoNul(name) && name != "" && |name| < NAME_BYTES
  {
  }

  /** Every accepted name survives the fixed 64-byte buffer unchanged. */
  lemma AcceptedNameSurvives(name: string)
    requires Parse(name).Parsed?
    ensures |name| < NAME_BYTES && NameOf(CopyName(name)) == name && name != ""
  {
    AcceptedNoNul(name);
    BufferKeeps(name);
  }

  lemma AcceptedNoNul(name: string)
    requires Parse(name).Parsed?
    ensures NoNul(name) && name != "" && |name| < NAME_BYTES
  {
    if Bootstrap(name) {
      BootstrapNoNul(name);
    } else {
      var r := Parse(name);
      ParsedIff(name, r.ns, r.leaf);
      GrammaticalNoNul(name, r.ns, r.leaf);
    }
  }

  lemma BufferKeeps(name: string)
    requires NoNul(name) && |name| < NAME_BYTES
    ensures NameOf(CopyName(name)) == name
  {
    NameRoundTrip(name);
  }

  // ---------------------------------------------------------------- the namespace quota's prefix

  /** The quota's prefix of an entry name, which does not include the dot, selects exactly the entries of the
      namespace among accepted names. */
  lemma PrefixSelectsNamespace(name: string, ns: string)
    requires Parse(name).Parsed? && NamespaceAllowed(ns)
    ensures PREFIX + ns <= name <==> !Parse(name).bootstrap && Parse(name).ns == ns
  {
    var r := Parse(name);
    if r.bootstrap {
      BootstrapPrefix(name, ns);
    } else {
      ParsedIff(name, r.ns, r.leaf);
      assert name == PREFIX + (r.ns + "." + r.leaf);
      PrefixAfter(PREFIX, ns, r.ns + "." + r.leaf);
      AllowedPrefix(ns, r.ns, r.leaf);
    }
  }

  lemma BootstrapPrefix(name: string, ns: string)
    requires Bootstrap(name) && NamespaceAllowed(ns)
    ensures !(PREFIX + ns <= name)
  {
    assert (PREFIX + ns)[|PREFIX|] == ns[0];
  }

  lemma PrefixAfter(p: string, a: string, b: string)
    ensures p + a <= p + b <==> a <= b
  {
    if p + a <= p + b {
      assert a == (p + a)[|p|..] && b[..|a|] == (p + b)[|p|..|p| + |a|];
    }
  }

  lemma AllowedPrefix(ns: string, other: string, leaf: string)
    requires NamespaceAllowed(ns) && NamespaceAllowed(other)
    ensures ns <= other + "." + leaf <==> ns == other
  {
    var s := other + "." + leaf;
    assert s[..|other|] == other && s[|other|] == '.';
    if ns <= s {
      assert ns[0] == s[0] == other[0] && ns[1] == s[1] == other[1];
    }
  }

  // ---------------------------------------------------------------- the accepted names, spelled out

  lemma Alphabet(c: char)
    ensures Lower(c) <==> c in "abcdefghijklmnopqrstuvwxyz"
    ensures TailChar(c) <==> c in "abcdefghijklmnopqrstuvwxyz0123456789_-"
  {
  }

  /** Every character of the label is a tail character. */
  lemma TailAlphabet(s: string)
    ensures AllTail(s) <==> forall i :: 0 <= i < |s| ==> s[i] in "abcdefghijklmnopqrstuvwxyz0123456789_-"
  {
    forall i | 0 <= i < |s| ensures TailChar(s[i]) <==> s[i] in "abcdefghijklmnopqrstuvwxyz0123456789_-" {
      Alphabet(s[i]);
    }
  }

  /** A name is accepted, and gives this namespace and leaf, exactly when it is spelled so. */
  lemma AcceptedSpelling(name: string, ns: string, leaf: string)
    ensures Parse(name) == Parsed(ns, leaf, false)
       <==> && name == "/shmfx." + ns + "." + leaf && ns in ["log", "tlm", "kv", "app", "sys"]
            && 1 <= |leaf| <= 39 && leaf[0] in "abcdefghijklmnopqrstuvwxyz"
            && forall i :: 0 <= i < |leaf| ==> leaf[i] in "abcdefghijklmnopqrstuvwxyz0123456789_-"
  {
    ParsedIff(name, ns, leaf);
    AllowedSpelling(ns);
    TailAlphabet(leaf);
    if leaf != "" { Alphabet(leaf[0]); }
  }

  lemma AllowedSpelling(ns: string)
    ensures NamespaceAllowed(ns) <==> ns in ["log", "tlm", "kv", "app", "sys"]
    ensures NamespaceAllowed(ns) ==> Label(ns, 2, 15)
  {
  }

  /** The grammar's other names, spelled out: a namespace of 2 to 15 characters that is not allowed. */
  lemma DeniedSpelling(name: string, ns: string, leaf: string)
    requires name == "/shmfx." + ns + "." + leaf && 2 <= |ns| <= 15 && 1 <= |leaf| <= 39
    requires ns[0] in "abcdefghijklmnopqrstuvwxyz" && leaf[0] in "abcdefghijklmnopqrstuvwxyz"
    requires forall i :: 0 <= i < |ns| ==> ns[i] in "abcdefghijklmnopqrstuvwxyz0123456789_-"
    requires forall i :: 0 <= i < |leaf| ==> leaf[i] in "abcdefghijklmnopqrstuvwxyz0123456789_-"
    requires ns !in ["log", "tlm", "kv", "app", "sys"] && name != "/shmfx.registry.lock"
    ensures Parse(name) == PermissionDenied
  {
    TailAlphabet(ns);
    TailAlphabet(leaf);
    Alphabet(ns[0]);
    Alphabet(leaf[0]);
    AllowedSpelling(ns);
    assert Grammatical(name, ns, leaf);
    DotOf(name, ns, leaf);
    NotRegistry(name, ns, leaf);
    GrammaticalParse(name, ns, leaf);
  }

  lemma NotRegistry(name: string, ns: string, leaf: string)
    requires Grammatical(name, ns, leaf)
    ensures name != REGISTRY_NAME
  {
    assert name[|PREFIX| + |ns|] == '.';
  }

  /** The registry and its lock have names of their own, and nothing else parses as a bootstrap name. */
  lemma BootstrapParses(name: string)
    ensures Parse(name).Parsed? && Parse(name).bootstrap
       <==> name == "/shmfx.registry" || name == "/shmfx.registry.lock"
    ensures name == "/shmfx.registry" || name == "/shmfx.registry.lock" ==> Parse(name) == Parsed("", name, true)
  {
  }
}
