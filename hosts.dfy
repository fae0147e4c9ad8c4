/** findHost (pan.go) and the address-object pair it works on (main.go). */
module Hosts {
  import opened Named

  /** An address object reduced to its name and value (main.go, type addrObj).
      The value is a bare address or an address with a prefix length after a
      `/`, the CIDR notation of section 3.1 of RFC 4632. */
  datatype AddrObj = AddrObj(name: string, value: string)

  /** The address part findHost compares with the host: the text before the first `/`, or all of `v`
      when it has none. */
  function AddressPart(v: string): (a: string)
    ensures a <= v
    ensures '/' !in a
    ensures |a| < |v| ==> v[|a|] == '/'
  {
    if v == [] || v[0] == '/' then [] else [v[0]] + AddressPart(v[1..])
  }

  /** With its first `/` at position n, a value's address part is the text
      before position n. */
  lemma {:induction false} AddressPartAt(v: string, n: nat)
    requires n < |v| && v[n] == '/' && '/' !in v[..n]
    ensures AddressPart(v) == v[..n]
  {
    if n > 0 {
      assert v[0] in v[..n];
      assert v[1..][..n - 1] == v[1..n];
      assert '/' !in v[1..][..n - 1] by {
        assert forall c :: c in v[1..n] ==> c in v[..n];
      }
      AddressPartAt(v[1..], n - 1);
      assert v[..n] == [v[0]] + v[1..n];
    }
  }

  /** The test findHost applies to one object value: the value is the host
      itself, or the host (which then holds no `/`) followed by `/` and more. */
  predicate Matches(host: string, value: string): (b: bool)
    ensures b <==> value == host ||
                   ('/' !in host && |host| < |value| && value[..|host|] == host && value[|host|] == '/')
  {
    SlashAfterHost(host, value);
    value == host || ('/' in value && AddressPart(value) == host)
  }

  /** A value that continues the host with `/` has the host as address part. */
  lemma SlashAfterHost(host: string, value: string)
    ensures '/' !in host && |host| < |value| && value[..|host|] == host && value[|host|] == '/' ==>
              '/' in value && AddressPart(value) == host
  {
    if '/' !in host && |host| < |value| && value[..|host|] == host && value[|host|] == '/' {
      AddressPartAt(value, |host|);
      assert value[|host|] in value;
    }
  }

  /** What findHost contributes for one object: the object's name paired with
      the host itself (not the object's original value). */
  function Hit(host: string, obj: AddrObj): seq<AddrObj>
  {
    if Matches(host, obj.value) then [AddrObj(obj.name, host)] else []
  }

  /** The specification of findHost: one hit per matching object, in input order. */
  function Found(host: string, objs: seq<AddrObj>): seq<AddrObj>
  {
    if objs == [] then [] else Found(host, objs[..|objs| - 1]) + Hit(host, objs[|objs| - 1])
  }

  /** The loop of findHost, with its early `continue` on an exact match. */
  method FindHost(host: string, objs: seq<AddrObj>) returns (objNames: seq<AddrObj>)
    ensures objNames == Found(host, objs)
  {
    objNames := [];
    for i := 0 to |objs|
      invariant objNames == Found(host, objs[..i])
    {
      var obj := objs[i];
      assert objs[..i + 1][..i] == objs[..i];
      if obj.value == host {
        objNames := objNames + [AddrObj(obj.name, host)];
        continue;
      }
      if '/' in obj.value {
        if AddressPart(obj.value) == host {
          objNames := objNames + [AddrObj(obj.name, host)];
        }
      }
    }
    assert objs[..|objs|] == objs;
  }

  /** An exact match can never also be a prefix match, so the `continue` never
      prevents a second hit for the same object: each object yields at most one. */
  lemma ExactAndPrefixExclusive(host: string, value: string)
    requires value == host
    ensures !('/' in value && AddressPart(value) == host)
  {
    assert '/' in value ==> '/' !in AddressPart(value);
  }

  /** Found answers for a concatenation piece by piece: results keep the order
      of the objects they come from. */
  lemma {:induction false} FoundAppend(host: string, a: seq<AddrObj>, b: seq<AddrObj>)
    ensures Found(host, a + b) == Found(host, a) + Found(host, b)
  {
    if b == [] {
      assert a + b == a;
    } else {
      var b' := b[..|b| - 1];
      assert (a + b)[..|a + b| - 1] == a + b';
      assert (a + b)[|a + b| - 1] == b[|b| - 1];
      FoundAppend(host, a, b');
    }
  }

  /** Some object called `n` matches the host. */
  predicate NameMatches(host: string, objs: seq<AddrObj>, n: string)
  {
    exists k :: 0 <= k < |objs| && objs[k].name == n && Matches(host, objs[k].value)
  }

  lemma NameMatchesStep(host: string, objs: seq<AddrObj>, n: string)
    requires objs != []
    ensures var last := objs[|objs| - 1];
            NameMatches(host, objs, n) <==>
            NameMatches(host, objs[..|objs| - 1], n) || (last.name == n && Matches(host, last.value))
  {
    var p := objs[..|objs| - 1];
    if NameMatches(host, objs, n) {
      var k :| 0 <= k < |objs| && objs[k].name == n && Matches(host, objs[k].value);
      if k < |p| {
        assert p[k] == objs[k];
      }
    }
    if NameMatches(host, p, n) {
      var k :| 0 <= k < |p| && p[k].name == n && Matches(host, p[k].value);
      assert objs[k] == p[k];
    }
  }

  /** Found lists a pair exactly when some object of that name matches the host,
      and every pair carries the host as its value. */
  lemma {:induction false} FoundMembers(host: string, objs: seq<AddrObj>)
    ensures forall o :: o in Found(host, objs) <==> o.value == host && NameMatches(host, objs, o.name)
  {
    if objs != [] {
      var p := objs[..|objs| - 1];
      var last := objs[|objs| - 1];
      FoundMembers(host, p);
      forall o
        ensures o in Found(host, objs) <==> o.value == host && NameMatches(host, objs, o.name)
      {
        NameMatchesStep(host, objs, o.name);
        assert o in Found(host, objs) <==> o in Found(host, p) || o in Hit(host, last);
      }
    }
  }

  function ObjName(o: AddrObj): string { o.name }

  /** With unique object names, every name found is found exactly once. */
  lemma {:induction false} FoundUniqueNames(host: string, objs: seq<AddrObj>)
    requires Unique(objs, ObjName)
    ensures Unique(Found(host, objs), ObjName)
  {
    if objs != [] {
      var p := objs[..|objs| - 1];
      var last := objs[|objs| - 1];
      FoundUniqueNames(host, p);
      FoundMembers(host, p);
      var f := Found(host, p);
      forall i | 0 <= i < |f|
        ensures f[i].name != last.name
      {
        assert f[i] in f;
      }
    }
  }

  /** TestFindHost (pan_test.go): among four objects, 8.8.8.8 finds exactly the
      object google-dns-obj. */
  lemma FindHostTestCase()
    ensures Found("8.8.8.8", [AddrObj("some-other-obj", "10.2.2.2"), AddrObj("another-obj", "3.2.3.1"),
                              AddrObj("google-dns-obj", "8.8.8.8"), AddrObj("test-obj", "172.16.40.12")])
            == [AddrObj("google-dns-obj", "8.8.8.8")]
  {
    var host := "8.8.8.8";
    var o0, o1 := AddrObj("some-other-obj", "10.2.2.2"), AddrObj("another-obj", "3.2.3.1");
    var o2, o3 := AddrObj("google-dns-obj", "8.8.8.8"), AddrObj("test-obj", "172.16.40.12");
    NoMatchWithoutSlash(host, o0);
    NoMatchWithoutSlash(host, o1);
    NoMatchWithoutSlash(host, o3);
    assert Hit(host, o2) == [o2];
    FoundOfFour(host, o0, o1, o2, o3);
  }

  lemma FoundOfFour(host: string, o0: AddrObj, o1: AddrObj, o2: AddrObj, o3: AddrObj)
    ensures Found(host, [o0, o1, o2, o3]) == Hit(host, o0) + Hit(host, o1) + Hit(host, o2) + Hit(host, o3)
  {
    FoundSingle(host, o0);
    FoundSingle(host, o1);
    FoundSingle(host, o2);
    FoundSingle(host, o3);
    FoundAppend(host, [o0], [o1]);
    FoundAppend(host, [o0, o1], [o2]);
    FoundAppend(host, [o0, o1, o2], [o3]);
    assert [o0] + [o1] == [o0, o1] && [o0, o1] + [o2] == [o0, o1, o2];
    assert [o0, o1, o2] + [o3] == [o0, o1, o2, o3];
  }

  lemma FoundSingle(host: string, o: AddrObj)
    ensures Found(host, [o]) == Hit(host, o)
  {
    assert [o][..0] == [];
  }

  lemma NoMatchWithoutSlash(host: string, o: AddrObj)
    requires o.value != host && '/' !in o.value
    ensures Hit(host, o) == []
  {
  }

  /** A value written with a prefix length matches its bare address, and the
      pair found carries the bare address: host/len is found for host. */
  lemma PrefixedValueMatches(name: string, host: string, prefixLength: string)
    requires '/' !in host
    ensures Found(host, [AddrObj(name, host + "/" + prefixLength)]) == [AddrObj(name, host)]
  {
    var v := host + "/" + prefixLength;
    assert AddressPart(v) == host by {
      assert v[|host|] == '/' && v[..|host|] == host;
      AddressPartAt(v, |host|);
    }
    assert '/' in v by {
      assert v[|host|] == '/';
    }
    FoundSingle(host, AddrObj(name, v));
  }
}
