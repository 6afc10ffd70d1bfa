/** Default and configured DHCPv4 options and how a response gets them
    (internal/dhcpsvc/options4.go). */
module Options4 {
  import opened NetIp
  import opened Slices

  /** An option without data, if configured, removes its code from responses. */
  datatype Opt = Opt(code: Byte, data: seq<Byte>)

  function CompareCodes(a: Opt, b: Opt): int {
    a.code - b.code
  }

  /** Strictly ascending codes. */
  ghost predicate Sorted(s: seq<Opt>) {
    Ascending(CompareCodes, s)
  }

  /** The last value configured for each code. */
  ghost function Configured(conf: seq<Opt>): map<Byte, seq<Byte>> {
    if conf == [] then map[] else
      var o := conf[|conf| - 1];
      Configured(conf[..|conf| - 1])[o.code := o.data]
  }

  /** The codes are those configured, and the value configured last counts: the
      option number i, if none after it has its code. */
  lemma {:induction false} LastConfigured(conf: seq<Opt>, i: nat)
    requires i < |conf| && forall j :: i < j < |conf| ==> conf[j].code != conf[i].code
    ensures conf[i].code in Configured(conf) && Configured(conf)[conf[i].code] == conf[i].data
  {
    if i < |conf| - 1 {
      LastConfigured(conf[..|conf| - 1], i);
    }
  }

  lemma {:induction false} ConfiguredCodes(conf: seq<Opt>, code: Byte)
    ensures code in Configured(conf) <==> Has(conf, code)
  {
    if conf != [] {
      ConfiguredCodes(conf[..|conf| - 1], code);
      assert forall o :: o in conf <==> o in conf[..|conf| - 1] || o == conf[|conf| - 1];
    }
  }

  lemma SortedPartitioned(s: seq<Opt>, o: Opt)
    requires Sorted(s)
    ensures Partitioned(s, o, CompareCodes)
  {
  }

  /** Whether a binary search in a sorted list finds the code says whether the
      list has it. */
  method Search(s: seq<Opt>, o: Opt) returns (i: nat, found: bool)
    requires Sorted(s)
    ensures i <= |s| && (found ==> i < |s| && s[i].code == o.code)
    ensures found ==> forall k :: 0 <= k < |s| && s[k].code == o.code ==> k == i
    ensures !found ==> forall k :: 0 <= k < |s| ==> s[k].code != o.code
    ensures forall k :: 0 <= k < i ==> s[k].code < o.code
    ensures forall k :: i <= k < |s| ==> s[k].code >= o.code
  {
    SortedPartitioned(s, o);
    i, found := BinarySearch(s, o, CompareCodes);
    assert forall k :: 0 <= k < i ==> CompareCodes(s[k], o) < 0;
    assert forall k :: i <= k < |s| ==> CompareCodes(s[k], o) >= 0;
    forall k | i < k < |s| ensures s[k].code > o.code {
      assert CompareCodes(s[i], s[k]) < 0;
    }
  }

  lemma InsertSorted(s: seq<Opt>, i: nat, o: Opt)
    requires Sorted(s) && i <= |s|
    requires forall k :: 0 <= k < i ==> s[k].code < o.code
    requires forall k :: i <= k < |s| ==> s[k].code > o.code
    ensures Sorted(Insert(s, i, o))
    ensures forall x :: x in Insert(s, i, o) <==> x in s || x == o
  {
  }

  lemma DeleteSorted(s: seq<Opt>, i: nat)
    requires Sorted(s) && i < |s|
    ensures Sorted(Delete(s, i))
    ensures forall x :: x in Delete(s, i) <==> x in s && x.code != s[i].code
  {
  }

  lemma ReplaceSorted(s: seq<Opt>, i: nat, o: Opt)
    requires Sorted(s) && i < |s| && s[i].code == o.code
    ensures Sorted(s[i := o])
    ensures forall x :: x in s[i := o] <==> (x in s && x.code != o.code) || x == o
  {
    var t := s[i := o];
    assert t[i] == o;
    forall x | x in s && x.code != o.code ensures x in t {
      var k :| 0 <= k < |s| && s[k] == x;
      assert t[k] == x;
    }
    forall a | 0 <= a < |t| && a != i ensures t[a].code != o.code {
      assert a < i ==> CompareCodes(s[a], s[i]) < 0;
      assert a > i ==> CompareCodes(s[i], s[a]) < 0;
    }
  }

  /** `options`: splits the defaults and the configuration into two sorted lists
      with disjoint codes. */
  method Options(defaults: seq<Opt>, conf: seq<Opt>) returns (imp: seq<Opt>, exp: seq<Opt>)
    requires Sorted(defaults)
    ensures Sorted(imp) && Sorted(exp)
    ensures forall o :: o in imp <==> o in defaults && o.code !in Configured(conf)
    ensures forall o :: o in exp <==> o.code in Configured(conf) && o.data == Configured(conf)[o.code]
  {
    imp, exp := defaults, [];
    for n := 0 to |conf|
      invariant Sorted(imp) && Sorted(exp)
      invariant forall o :: o in imp <==> o in defaults && o.code !in Configured(conf[..n])
      invariant forall o :: o in exp <==> o.code in Configured(conf[..n]) && o.data == Configured(conf[..n])[o.code]
    {
      assert conf[..n + 1][..n] == conf[..n];
      imp := Exclude(imp, conf[n]);
      exp := Include(exp, conf[n]);
    }
    assert conf[..|conf|] == conf;
  }

  /** Deletes a configured code from the defaults. */
  method Exclude(imp: seq<Opt>, o: Opt) returns (r: seq<Opt>)
    requires Sorted(imp)
    ensures Sorted(r) && forall x :: x in r <==> x in imp && x.code != o.code
  {
    var i, found := Search(imp, o);
    if found {
      DeleteSorted(imp, i);
      return Delete(imp, i);
    }
    return imp;
  }

  /** Adds a configured option, or gives its code the new value. */
  method Include(exp: seq<Opt>, o: Opt) returns (r: seq<Opt>)
    requires Sorted(exp)
    ensures Sorted(r) && forall x :: x in r <==> (x in exp && x.code != o.code) || x == o
  {
    var i, found := Search(exp, o);
    if found {
      ReplaceSorted(exp, i, o);
      return exp[i := exp[i].(data := o.data)];
    }
    InsertSorted(exp, i, o);
    return Insert(exp, i, o);
  }

  /** The defaults that a client asks for, in the order of its request. */
  ghost function Defaults(imp: seq<Opt>, requested: seq<Byte>): seq<Opt> {
    if requested == [] then [] else
      var code := requested[|requested| - 1];
      var rest := Defaults(imp, requested[..|requested| - 1]);
      if i :| 0 <= i < |imp| && imp[i].code == code then rest + [imp[i]] else rest
  }

  ghost function Keep(s: seq<Opt>, deleted: set<Byte>): seq<Opt> {
    if s == [] then [] else
      var rest := Keep(s[..|s| - 1], deleted);
      if s[|s| - 1].code in deleted then rest else rest + [s[|s| - 1]]
  }

  /** The codes that the configuration removes. */
  ghost function Deleted(exp: seq<Opt>): set<Byte> {
    set o | o in exp && o.data == [] :: o.code
  }

  /** The values that the configuration sets. */
  ghost function Values(exp: seq<Opt>): seq<Opt> {
    if exp == [] then [] else
      var rest := Values(exp[..|exp| - 1]);
      if exp[|exp| - 1].data == [] then rest else rest + [exp[|exp| - 1]]
  }

  /** `appendRequestedOptions`: what was there and the requested defaults, less
      the removed codes, then the configured values. */
  method AppendRequested(opts: seq<Opt>, imp: seq<Opt>, exp: seq<Opt>, requested: seq<Byte>) returns (res: seq<Opt>)
    requires Sorted(imp) && Sorted(exp)
    ensures res == Keep(opts + Defaults(imp, requested), Deleted(exp)) + Values(exp)
  {
    res := opts;
    for n := 0 to |requested|
      invariant res == opts + Defaults(imp, requested[..n])
    {
      assert requested[..n + 1][..n] == requested[..n];
      var i, has := Search(imp, Opt(requested[n], []));
      if has {
        res := res + [imp[i]];
      }
    }
    assert requested[..|requested|] == requested;
    res := ApplyConfigured(res, exp);
  }

  /** The second loop: appends the configured values and takes out the codes
      that are configured without one. */
  method ApplyConfigured(base: seq<Opt>, exp: seq<Opt>) returns (res: seq<Opt>)
    requires Sorted(exp)
    ensures res == Keep(base, Deleted(exp)) + Values(exp)
  {
    res := base;
    KeepAll(base);
    assert Deleted(exp[..0]) == {} && Values(exp[..0]) == [];
    for n := 0 to |exp|
      invariant res == Keep(base, Deleted(exp[..n])) + Values(exp[..n])
    {
      hide Keep;
      assert exp[..n + 1][..n] == exp[..n];
      DeletedStep(exp, n);
      if |exp[n].data| > 0 {
        assert Deleted(exp[..n + 1]) == Deleted(exp[..n]);
        res := res + [exp[n]];
      } else {
        DeletionStep(base, exp, n);
        res := DeleteFunc(res, exp[n].code);
      }
    }
    assert exp[..|exp|] == exp;
  }

  lemma DeletedStep(exp: seq<Opt>, n: nat)
    requires n < |exp|
    ensures Deleted(exp[..n + 1]) == Deleted(exp[..n]) + if exp[n].data == [] then {exp[n].code} else {}
  {
  }

  method DeleteFunc(s: seq<Opt>, code: Byte) returns (r: seq<Opt>)
    ensures r == Keep(s, {code})
  {
    r := [];
    for n := 0 to |s|
      invariant r == Keep(s[..n], {code})
    {
      assert s[..n + 1][..n] == s[..n];
      if s[n].code != code {
        r := r + [s[n]];
      }
    }
    assert s[..|s|] == s;
  }

  /** `at` are ascending places in a sequence of n elements. */
  ghost predicate Places(at: seq<nat>, n: nat) {
    && (forall j, k :: 0 <= j < k < |at| ==> at[j] < at[k])
    && (forall k :: 0 <= k < |at| ==> at[k] < n)
  }

  /** What is kept keeps its order: it stands at the places without a removed code. */
  lemma {:induction false} KeepOrder(s: seq<Opt>, deleted: set<Byte>) returns (at: seq<nat>)
    ensures Places(at, |s|) && |at| == |Keep(s, deleted)|
    ensures forall k :: 0 <= k < |at| ==> Keep(s, deleted)[k] == s[at[k]]
    ensures forall i :: 0 <= i < |s| ==> (i in at <==> s[i].code !in deleted)
  {
    at := [];
    if s != [] {
      var n := |s| - 1;
      at := KeepOrder(s[..n], deleted);
      assert Keep(s, deleted) == Keep(s[..n], deleted) + if s[n].code in deleted then [] else [s[n]];
      hide Keep;
      if s[n].code !in deleted {
        at := at + [n];
      }
    }
  }

  /** The configured values come in the order of the configuration. */
  lemma {:induction false} ValuesOrder(exp: seq<Opt>) returns (at: seq<nat>)
    ensures Places(at, |exp|) && |at| == |Values(exp)|
    ensures forall k :: 0 <= k < |at| ==> Values(exp)[k] == exp[at[k]]
    ensures forall i :: 0 <= i < |exp| ==> (i in at <==> exp[i].data != [])
  {
    at := [];
    if exp != [] {
      var n := |exp| - 1;
      at := ValuesOrder(exp[..n]);
      if exp[n].data != [] {
        at := at + [n];
      }
    }
  }

  /** The list has an option with the code. */
  ghost predicate Has(s: seq<Opt>, code: Byte) {
    exists o :: o in s && o.code == code
  }

  lemma DefaultsSnoc(imp: seq<Opt>, requested: seq<Byte>)
    requires requested != []
    ensures var (d, init, code) := (Defaults(imp, requested), Defaults(imp, requested[..|requested| - 1]), requested[|requested| - 1]);
            if Has(imp, code) then |d| == |init| + 1 && d[..|init|] == init && d[|init|] in imp && d[|init|].code == code
            else d == init
  {
    var code := requested[|requested| - 1];
    if Has(imp, code) {
      var o :| o in imp && o.code == code;
      var i :| 0 <= i < |imp| && imp[i] == o;
    }
  }

  /** The defaults come in the order of the request, one for each requested code
      that has one, as often as it is requested. */
  lemma {:induction false} DefaultsOrder(imp: seq<Opt>, requested: seq<Byte>) returns (at: seq<nat>)
    ensures Places(at, |requested|) && |at| == |Defaults(imp, requested)|
    ensures forall k :: 0 <= k < |at| ==>
                          Defaults(imp, requested)[k] in imp && Defaults(imp, requested)[k].code == requested[at[k]]
    ensures forall i :: 0 <= i < |requested| ==> (i in at <==> Has(imp, requested[i]))
  {
    at := [];
    if requested != [] {
      var n := |requested| - 1;
      at := DefaultsOrder(imp, requested[..n]);
      DefaultsSnoc(imp, requested);
      hide Defaults;
      if Has(imp, requested[n]) {
        at := at + [n];
      }
    }
  }

  lemma {:induction false} KeepAll(s: seq<Opt>)
    ensures Keep(s, {}) == s
  {
    if s != [] {
      KeepAll(s[..|s| - 1]);
    }
  }

  lemma {:induction false} KeepConcat(s: seq<Opt>, t: seq<Opt>, d: set<Byte>)
    ensures Keep(s + t, d) == Keep(s, d) + Keep(t, d)
  {
    if t == [] {
      assert s + t == s;
    } else {
      assert (s + t)[..|s + t| - 1] == s + t[..|t| - 1];
      KeepConcat(s, t[..|t| - 1], d);
    }
  }

  lemma {:induction false} KeepTwice(s: seq<Opt>, d: set<Byte>, e: set<Byte>)
    ensures Keep(Keep(s, d), e) == Keep(s, d + e)
  {
    if s != [] {
      var last := s[|s| - 1];
      KeepTwice(s[..|s| - 1], d, e);
      if last.code !in d {
        var k := Keep(s[..|s| - 1], d);
        assert (k + [last])[..|k|] == k;
      }
    }
  }

  lemma {:induction false} KeepElements(s: seq<Opt>, d: set<Byte>)
    ensures forall o :: o in Keep(s, d) <==> o in s && o.code !in d
  {
    if s != [] {
      KeepElements(s[..|s| - 1], d);
      assert forall o :: o in s <==> o in s[..|s| - 1] || o == s[|s| - 1];
    }
  }

  lemma {:induction false} KeepUntouched(s: seq<Opt>, d: set<Byte>)
    requires forall o :: o in s ==> o.code !in d
    ensures Keep(s, d) == s
  {
    if s != [] {
      assert forall o :: o in s[..|s| - 1] ==> o in s;
      KeepUntouched(s[..|s| - 1], d);
    }
  }

  lemma {:induction false} ValuesElements(exp: seq<Opt>)
    ensures forall o :: o in Values(exp) <==> o in exp && o.data != []
  {
    if exp != [] {
      ValuesElements(exp[..|exp| - 1]);
      assert forall o :: o in exp <==> o in exp[..|exp| - 1] || o == exp[|exp| - 1];
    }
  }

  /** A deletion does not touch the values set before it: their codes differ. */
  lemma DeletionStep(base: seq<Opt>, exp: seq<Opt>, n: nat)
    requires Sorted(exp) && n < |exp|
    ensures var (d, code) := (Deleted(exp[..n]), exp[n].code);
            Keep(Keep(base, d) + Values(exp[..n]), {code}) == Keep(base, d + {code}) + Values(exp[..n])
  {
    var d, code := Deleted(exp[..n]), exp[n].code;
    KeepConcat(Keep(base, d), Values(exp[..n]), {code});
    KeepTwice(base, d, {code});
    ValuesElements(exp[..n]);
    forall o | o in Values(exp[..n]) ensures o.code !in {code} {
      var k :| 0 <= k < n && exp[k] == o;
      assert CompareCodes(exp[k], exp[n]) < 0;
    }
    KeepUntouched(Values(exp[..n]), {code});
  }

  lemma {:induction false} DefaultsElements(imp: seq<Opt>, requested: seq<Byte>)
    requires Sorted(imp)
    ensures forall o :: o in Defaults(imp, requested) <==> o in imp && o.code in requested
  {
    if requested != [] {
      var init, code := requested[..|requested| - 1], requested[|requested| - 1];
      DefaultsElements(imp, init);
      assert forall c :: c in requested <==> c in init || c == code;
      forall i, j | 0 <= i < |imp| && 0 <= j < |imp| && imp[i].code == imp[j].code ensures i == j {
        assert i < j ==> CompareCodes(imp[i], imp[j]) < 0;
        assert j < i ==> CompareCodes(imp[j], imp[i]) < 0;
      }
    }
  }

  /** What a response to a client carries: no removed code survives, every
      configured value is there, and so is every requested default that the
      configuration does not touch. */
  lemma ResponseContents(opts: seq<Opt>, imp: seq<Opt>, exp: seq<Opt>, requested: seq<Byte>, defaults: seq<Opt>, conf: seq<Opt>)
    requires Sorted(imp) && Sorted(exp)
    requires forall o :: o in imp <==> o in defaults && o.code !in Configured(conf)
    requires forall o :: o in exp <==> o.code in Configured(conf) && o.data == Configured(conf)[o.code]
    ensures var res := Keep(opts + Defaults(imp, requested), Deleted(exp)) + Values(exp);
            && (forall o :: o in res && o.code in Configured(conf) ==> Configured(conf)[o.code] != [])
            && (forall c :: c in Configured(conf) && Configured(conf)[c] != [] ==> Opt(c, Configured(conf)[c]) in res)
            && (forall o :: o in defaults && o.code in requested && o.code !in Configured(conf) ==> o in res)
            && (forall o :: o in res ==> o in opts || o in defaults || (o.code in Configured(conf) && o.data == Configured(conf)[o.code]))
  {
    KeepElements(opts + Defaults(imp, requested), Deleted(exp));
    ValuesElements(exp);
    DefaultsElements(imp, requested);
    forall c | c in Configured(conf) && Configured(conf)[c] == [] ensures c in Deleted(exp) {
      assert Opt(c, []) in exp;
    }
  }
}
