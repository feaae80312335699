/** The MAC checks of attach: what the registry expects of a header, and what the header itself must carry. */
module AttachMac {
  import HM = HeaderMac
  import opened Names
  import opened RegistryOps
  import opened RegistryTable
  import opened Sha256Spec

  /** Bit 0 of an entry's flags. */
  predicate EntryEnabled(b: Body) {
    b.flags % 2 == 1
  }

  /** The first listed entry of the name has the flag. */
  ghost predicate FirstEnabled(listed: seq<Body>, name: string) {
    exists i :: 0 <= i < |listed| && Key(listed[i]) == name && EntryEnabled(listed[i])
                && forall j :: 0 <= j < i ==> Key(listed[j]) != name
  }

  /** `registry_expects_hmac`: looks for the name among the entries listed under it as a prefix. */
  method RegistryExpectsHmac(name: string, listed: seq<Body>) returns (r: bool)
    ensures r <==> name != REGISTRY_NAME && FirstEnabled(listed, name)
  {
    if name == REGISTRY_NAME {
      return false;
    }
    for i := 0 to |listed|
      invariant forall j :: 0 <= j < i ==> Key(listed[j]) != name
    {
      if Key(listed[i]) == name {
        return listed[i].flags % 2 == 1;
      }
    }
    r := false;
  }

  /** The map entry of the name has the flag. */
  predicate Expects(t: Table, name: string)
    requires Sized(t)
  {
    name != REGISTRY_NAME && name in Dict(t) && EntryEnabled(Dict(t)[name])
  }

  /** On the list of a table with distinct names, the search answers for the map entry of the name. */
  lemma ExpectsFromList(t: Table, name: string)
    requires Sized(t) && Distinct(t)
    ensures Expects(t, name) <==> name != REGISTRY_NAME && FirstEnabled(ListBelow(t, name, |t.slots|), name)
  {
    ListIsMap(t, name);
    var listed := ListBelow(t, name, |t.slots|);
    if name in Dict(t) {
      KeyOfDict(t, name);
      assert Dict(t)[name] in listed;
      var i :| 0 <= i < |listed| && listed[i] == Dict(t)[name];
      assert forall j :: 0 <= j < i ==> Key(listed[j]) != name;
    }
    if FirstEnabled(listed, name) {
      var i :| 0 <= i < |listed| && Key(listed[i]) == name && EntryEnabled(listed[i]);
      assert listed[i] in listed;
    }
  }

  lemma KeyOfDict(t: Table, name: string)
    requires Sized(t) && Distinct(t) && name in Dict(t)
    ensures Key(Dict(t)[name]) == name
  {
    DictKeys(t, |t.slots|, name);
    var i: nat :| i < |t.slots| && At(t, i, name);
    DictAt(t, i, name);
  }

  /** The two MAC checks of attach. */
  function AttachVerdict(t: Table, name: string, h: HM.Header, key: HM.KeyOption): (v: HM.Verdict)
    requires Sized(t) && HM.KeyOk(key)
  {
    if Expects(t, name) && !HM.HmacEnabled(h) then HM.CorruptedHeader else HM.Verified(h, key)
  }

  /** Where the registry entry has the flag, attach accepts only a header that has it too and carries the MAC of its own
      immutable bytes; a header stripped of flag and MAC passes only where the entry does not have the flag. */
  lemma ExpectedMacIsNeeded(t: Table, name: string, h: HM.Header, key: HM.KeyOption)
    requires Sized(t) && HM.KeyOk(key)
    ensures var expected := name != "/shmfx.registry" && name in Dict(t) && Dict(t)[name].flags % 2 == 1;
            var v := AttachVerdict(t, name, h, key);
            && (expected ==> (v == HM.Accepted
                              <==> h[12] & 1 != 0 && key.Key? && h[128..160] == Hmac(key.bytes, h[..128])))
            && (expected && h[12] & 1 == 0 ==> v == HM.CorruptedHeader)
            && (!expected ==> v == HM.Verified(h, key))
  {
  }
}
