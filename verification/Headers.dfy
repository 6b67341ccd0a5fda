/** The two header containers the proxy works with: a java.util.HashMap
    filled by successive `put` calls (case-sensitive keys, the last write
    wins), and the header list of a Netty response, whose `set` replaces
    every entry of the same name, compared ignoring case. */
module Headers {
  import opened Wrappers
  import opened Text

  /** A header name and its value. */
  type Entry = (string, string)

  // ------------------------------------------------------------ HashMap

  /** The names of a list of entries. */
  function Names(es: seq<Entry>): set<string> {
    set i | 0 <= i < |es| :: es[i].0
  }

  /** `m` after `put(name, value)` for each entry of `es`, in order. */
  function PutAll(m: map<string, string>, es: seq<Entry>): (r: map<string, string>)
    ensures r.Keys == m.Keys + Names(es)
    decreases |es|
  {
    if es == [] then m
    else
      var last := es[|es| - 1];
      assert Names(es) == Names(es[..|es| - 1]) + {last.0} by {
        forall k | k in Names(es) ensures k in Names(es[..|es| - 1]) + {last.0} {
          var i :| 0 <= i < |es| && es[i].0 == k;
          if i < |es| - 1 { assert es[..|es| - 1][i] == es[i]; }
        }
      }
      PutAll(m, es[..|es| - 1])[last.0 := last.1]
  }

  /** The entry that is the last one of its name decides that name's value. */
  lemma {:induction false} PutAllLastWins(m: map<string, string>, es: seq<Entry>, i: nat)
    requires i < |es| && forall j :: i < j < |es| ==> es[j].0 != es[i].0
    ensures es[i].0 in PutAll(m, es) && PutAll(m, es)[es[i].0] == es[i].1
    decreases |es|
  {
    if i < |es| - 1 {
      var init := es[..|es| - 1];
      assert init[i] == es[i];
      PutAllLastWins(m, init, i);
    }
  }

  /** A name no entry carries keeps its old value. */
  lemma {:induction false} PutAllKeeps(m: map<string, string>, es: seq<Entry>, k: string)
    requires k in m && k !in Names(es)
    ensures k in PutAll(m, es) && PutAll(m, es)[k] == m[k]
    decreases |es|
  {
    if es != [] {
      var init := es[..|es| - 1];
      assert k != es[|es| - 1].0;
      forall i | 0 <= i < |init| ensures init[i].0 != k {
        assert init[i] == es[i];
      }
      PutAllKeeps(m, init, k);
    }
  }

  /** `order` is an order in which a map with these keys can yield them:
      each key once. */
  predicate IsIterationOrder(order: seq<string>, keys: set<string>) {
    && (forall i :: 0 <= i < |order| ==> order[i] in keys)
    && (forall k :: k in keys ==> k in order)
    && (forall i, j :: 0 <= i < j < |order| ==> order[i] != order[j])
  }

  // ------------------------------------------------------------ Netty

  /** The entries of `hs` whose name is not `name`, ignoring case. */
  function RemoveNamed(hs: seq<Entry>, name: string): (r: seq<Entry>)
    ensures forall i :: 0 <= i < |r| ==> !EqualsIgnoreCase(r[i].0, name)
    ensures |r| <= |hs|
  {
    if hs == [] then []
    else (if EqualsIgnoreCase(hs[0].0, name) then [] else [hs[0]]) + RemoveNamed(hs[1..], name)
  }

  /** HttpHeaders.set: drop every entry of that name, then add the new one. */
  function SetHeader(hs: seq<Entry>, name: string, value: string): seq<Entry> {
    RemoveNamed(hs, name) + [(name, value)]
  }

  /** HttpHeaders.get: the value of the first entry of that name. */
  function GetHeader(hs: seq<Entry>, name: string): Option<string> {
    if hs == [] then None
    else if EqualsIgnoreCase(hs[0].0, name) then Some(hs[0].1)
    else GetHeader(hs[1..], name)
  }

  lemma {:induction false} RemoveNamedContents(hs: seq<Entry>, name: string)
    ensures forall e :: e in RemoveNamed(hs, name) <==> e in hs && !EqualsIgnoreCase(e.0, name)
    decreases |hs|
  {
    if hs != [] {
      RemoveNamedContents(hs[1..], name);
      assert forall e :: e in hs <==> e == hs[0] || e in hs[1..];
    }
  }

  /** After `set`, the new entry is last and the only one of its name, and
      every entry of another name is still there; nothing else is. */
  lemma SetHeaderContents(hs: seq<Entry>, name: string, value: string)
    ensures var r := SetHeader(hs, name, value);
      && |r| >= 1 && r[|r| - 1] == (name, value)
      && (forall i :: 0 <= i < |r| - 1 ==> !EqualsIgnoreCase(r[i].0, name))
      && (forall e :: e in r <==> e == (name, value) || (e in hs && !EqualsIgnoreCase(e.0, name)))
  {
    RemoveNamedContents(hs, name);
  }

  /** `get` answers null exactly when no entry has the name, and otherwise
      the value of the first entry that has it. */
  lemma {:induction false} GetHeaderFirst(hs: seq<Entry>, name: string)
    ensures GetHeader(hs, name).None? <==> forall i :: 0 <= i < |hs| ==> !EqualsIgnoreCase(hs[i].0, name)
    ensures GetHeader(hs, name).Some? ==>
      exists i :: 0 <= i < |hs| && EqualsIgnoreCase(hs[i].0, name) && hs[i].1 == GetHeader(hs, name).value
                  && forall j :: 0 <= j < i ==> !EqualsIgnoreCase(hs[j].0, name)
    decreases |hs|
  {
    if hs != [] && !EqualsIgnoreCase(hs[0].0, name) {
      GetHeaderFirst(hs[1..], name);
      var r := GetHeader(hs[1..], name);
      if r.Some? {
        var i :| 0 <= i < |hs[1..]| && EqualsIgnoreCase(hs[1..][i].0, name) && hs[1..][i].1 == r.value
                && forall j :: 0 <= j < i ==> !EqualsIgnoreCase(hs[1..][j].0, name);
        assert hs[i + 1] == hs[1..][i];
        forall j | 0 <= j < i + 1 ensures !EqualsIgnoreCase(hs[j].0, name) {
          if j > 0 { assert hs[j] == hs[1..][j - 1]; }
        }
      } else {
        forall i | 0 <= i < |hs| ensures !EqualsIgnoreCase(hs[i].0, name) {
          if i > 0 { assert hs[i] == hs[1..][i - 1]; }
        }
      }
    }
  }

  /** The number of entries of that name. */
  function CountNamed(hs: seq<Entry>, name: string): nat {
    if hs == [] then 0
    else (if EqualsIgnoreCase(hs[0].0, name) then 1 else 0) + CountNamed(hs[1..], name)
  }

  lemma {:induction false} GetRemoveNamed(hs: seq<Entry>, name: string, q: string)
    ensures GetHeader(RemoveNamed(hs, name), q)
            == if EqualsIgnoreCase(name, q) then None else GetHeader(hs, q)
    decreases |hs|
  {
    if hs != [] {
      var r := RemoveNamed(hs, name);
      var tail := RemoveNamed(hs[1..], name);
      GetRemoveNamed(hs[1..], name, q);
      if EqualsIgnoreCase(hs[0].0, name) {
        assert r == tail;
        if !EqualsIgnoreCase(name, q) {
          if EqualsIgnoreCase(hs[0].0, q) {
            EqualsIgnoreCaseSymmetric(hs[0].0, name);
            EqualsIgnoreCaseTransitive(name, hs[0].0, q);
          }
        }
      } else {
        assert r == [hs[0]] + tail;
        assert r[1..] == tail;
        if EqualsIgnoreCase(name, q) && EqualsIgnoreCase(hs[0].0, q) {
          EqualsIgnoreCaseSymmetric(name, q);
          EqualsIgnoreCaseTransitive(hs[0].0, q, name);
        }
      }
    }
  }

  lemma {:induction false} GetAppend(hs: seq<Entry>, e: Entry, q: string)
    ensures GetHeader(hs + [e], q)
            == if GetHeader(hs, q).Some? then GetHeader(hs, q)
               else if EqualsIgnoreCase(e.0, q) then Some(e.1) else None
    decreases |hs|
  {
    if hs != [] {
      assert (hs + [e])[0] == hs[0];
      assert (hs + [e])[1..] == hs[1..] + [e];
      GetAppend(hs[1..], e, q);
    } else {
      assert hs + [e] == [e];
    }
  }

  /** After `set`, the name reads the new value and every other name reads
      what it read before. */
  lemma GetAfterSet(hs: seq<Entry>, name: string, value: string, q: string)
    ensures GetHeader(SetHeader(hs, name, value), q)
            == if EqualsIgnoreCase(name, q) then Some(value) else GetHeader(hs, q)
  {
    GetRemoveNamed(hs, name, q);
    GetAppend(RemoveNamed(hs, name), (name, value), q);
  }

  lemma {:induction false} CountRemoveNamed(hs: seq<Entry>, name: string)
    ensures CountNamed(RemoveNamed(hs, name), name) == 0
    decreases |hs|
  {
    if hs != [] {
      var r := RemoveNamed(hs, name);
      CountRemoveNamed(hs[1..], name);
      if !EqualsIgnoreCase(hs[0].0, name) {
        assert r[1..] == RemoveNamed(hs[1..], name);
      } else {
        assert r == RemoveNamed(hs[1..], name);
      }
    }
  }

  lemma {:induction false} CountAppend(hs: seq<Entry>, e: Entry, name: string)
    ensures CountNamed(hs + [e], name) == CountNamed(hs, name) + (if EqualsIgnoreCase(e.0, name) then 1 else 0)
    decreases |hs|
  {
    if hs != [] {
      assert (hs + [e])[1..] == hs[1..] + [e];
      CountAppend(hs[1..], e, name);
    } else {
      assert hs + [e] == [e];
    }
  }

  /** After `set`, exactly one entry carries the name. */
  lemma SetHeaderSingle(hs: seq<Entry>, name: string, value: string)
    ensures CountNamed(SetHeader(hs, name, value), name) == 1
  {
    CountRemoveNamed(hs, name);
    CountAppend(RemoveNamed(hs, name), (name, value), name);
    assert EqualsIgnoreCase(name, name);
  }

  /** `hs` after `set(k, m[k])` for each name `k` of `keys`, in order. */
  function SetAll(hs: seq<Entry>, keys: seq<string>, m: map<string, string>): seq<Entry>
    requires forall i :: 0 <= i < |keys| ==> keys[i] in m
    decreases |keys|
  {
    if keys == [] then hs
    else
      var k := keys[|keys| - 1];
      SetHeader(SetAll(hs, keys[..|keys| - 1], m), k, m[k])
  }

  /** The last of `keys` that equals `q` ignoring case. */
  function LastNamed(keys: seq<string>, q: string): (r: Option<string>)
    ensures r.Some? ==> r.value in keys && EqualsIgnoreCase(r.value, q)
    ensures r.None? ==> forall i :: 0 <= i < |keys| ==> !EqualsIgnoreCase(keys[i], q)
    decreases |keys|
  {
    if keys == [] then None
    else if EqualsIgnoreCase(keys[|keys| - 1], q) then Some(keys[|keys| - 1])
    else LastNamed(keys[..|keys| - 1], q)
  }

  /** After a run of `set` calls, a name reads the value of the last call
      that named it, or what it read before when none did. */
  lemma {:induction false} GetAfterSetAll(hs: seq<Entry>, keys: seq<string>, m: map<string, string>, q: string)
    requires forall i :: 0 <= i < |keys| ==> keys[i] in m
    ensures GetHeader(SetAll(hs, keys, m), q)
            == match LastNamed(keys, q)
               case Some(k) => Some(m[k])
               case None => GetHeader(hs, q)
    decreases |keys|
  {
    if keys != [] {
      var k := keys[|keys| - 1];
      GetAfterSetAll(hs, keys[..|keys| - 1], m, q);
      GetAfterSet(SetAll(hs, keys[..|keys| - 1], m), k, m[k], q);
    }
  }
}
