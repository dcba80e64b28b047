/**
 * Zip archives as the converter sees them: an ordered list of named
 * entries, which may repeat a name. Reading a name yields its most recently
 * written entry, as Python's `zipfile` does; `getinfo` only asks whether a
 * name is present.
 */
module Archive {
  import opened Results

  datatype Entry = Entry(name: string, data: string)

  type Archive = seq<Entry>

  /** `zipfile.getinfo(n)` succeeds: some entry is named `n`. */
  predicate Has(a: Archive, n: string) {
    exists i :: 0 <= i < |a| && a[i].name == n
  }

  /** The entry names, in archive order (`infolist()`). */
  function Names(a: Archive): (ns: seq<string>)
    ensures |ns| == |a|
    ensures forall i {:trigger ns[i]} :: 0 <= i < |a| ==> ns[i] == a[i].name
  {
    seq(|a|, i requires 0 <= i < |a| => a[i].name)
  }

  /** The position of the last entry named `n`. */
  function LastAt(a: Archive, n: string): (i: nat)
    requires Has(a, n)
    ensures i < |a| && a[i].name == n
    ensures forall j :: i < j < |a| ==> a[j].name != n
  {
    if a[|a| - 1].name == n then |a| - 1
    else
      assert Has(a[..|a| - 1], n) by {
        var k :| 0 <= k < |a| && a[k].name == n;
        assert a[..|a| - 1][k] == a[k];
      }
      var i := LastAt(a[..|a| - 1], n);
      assert a[i] == a[..|a| - 1][i];
      i
  }

  /** A name is among the entry names exactly when the archive holds it. */
  lemma NamesHas(a: Archive, n: string)
    ensures n in Names(a) <==> Has(a, n)
  {
    if Has(a, n) {
      var i :| 0 <= i < |a| && a[i].name == n;
      assert Names(a)[i] == n;
    }
  }

  /** How many entries are named `n`. */
  function CountName(a: Archive, n: string): (k: nat)
    ensures k > 0 <==> Has(a, n)
    ensures k <= |a|
  {
    if |a| == 0 then 0
    else CountName(a[..|a| - 1], n) + (if a[|a| - 1].name == n then 1 else 0)
  }

  /** `zipfile.read(n)`: the data of the last entry named `n`. */
  function Read(a: Archive, n: string): (r: Option<string>)
    ensures r.Some? <==> Has(a, n)
    ensures r.Some? ==> Entry(n, r.value) in a
  {
    if |a| == 0 then None
    else if a[|a| - 1].name == n then Some(a[|a| - 1].data)
    else Read(a[..|a| - 1], n)
  }

  /** What reading gives is the data of the last entry of that name. */
  lemma {:induction false} ReadIsLast(a: Archive, n: string)
    requires Has(a, n)
    ensures Read(a, n) == Some(a[LastAt(a, n)].data)
  {
    if a[|a| - 1].name != n {
      var front := a[..|a| - 1];
      assert Has(front, n) by {
        var k :| 0 <= k < |a| && a[k].name == n;
        assert front[k] == a[k];
      }
      ReadIsLast(front, n);
      assert a[LastAt(front, n)] == front[LastAt(front, n)];
    }
  }

  /** An entry that no later entry shadows is what reading its name gives. */
  lemma ReadUnshadowed(a: Archive, i: nat)
    requires i < |a| && forall j :: i < j < |a| ==> a[j].name != a[i].name
    ensures Read(a, a[i].name) == Some(a[i].data)
  {
    assert Has(a, a[i].name);
    ReadIsLast(a, a[i].name);
  }

  /** Appending one entry adds one to its name's count and nothing to any other. */
  lemma CountAppend(a: Archive, e: Entry, n: string)
    ensures CountName(a + [e], n) == CountName(a, n) + (if e.name == n then 1 else 0)
  {
    assert (a + [e])[..|a|] == a;
  }

  /** Appending an entry makes it the one that `Read` returns for its name. */
  lemma ReadAppend(a: Archive, e: Entry, n: string)
    ensures Read(a + [e], n) == if e.name == n then Some(e.data) else Read(a, n)
  {
    assert (a + [e])[..|a|] == a;
  }

  /** The count over an extended archive is the count over its prefix plus the count over what follows. */
  lemma {:induction false} CountExtend(a: Archive, b: Archive, n: string)
    requires |a| <= |b| && b[..|a|] == a
    ensures CountName(b, n) == CountName(a, n) + CountName(b[|a|..], n)
    decreases |b|
  {
    if |b| > |a| {
      var front := b[..|b| - 1];
      assert front[..|a|] == a;
      CountExtend(a, front, n);
      assert b[|a|..] == front[|a|..] + [b[|b| - 1]];
      CountAppend(front[|a|..], b[|b| - 1], n);
      assert b == front + [b[|b| - 1]];
      CountAppend(front, b[|b| - 1], n);
    } else {
      assert b == a;
    }
  }

  /** What an archive holds, any extension of it still holds. */
  lemma HasExtend(a: Archive, b: Archive, n: string)
    requires |a| <= |b| && b[..|a|] == a
    requires Has(a, n)
    ensures Has(b, n)
  {
    var i :| 0 <= i < |a| && a[i].name == n;
    assert b[i] == b[..|a|][i];
  }

  /** Entries appended under other names leave what `Read` returns for `n` unchanged. */
  lemma {:induction false} ReadExtend(a: Archive, b: Archive, n: string)
    requires |a| <= |b| && b[..|a|] == a
    requires CountName(b, n) == CountName(a, n)
    ensures Read(b, n) == Read(a, n)
    decreases |b|
  {
    CountExtend(a, b, n);
    if |b| > |a| {
      var front := b[..|b| - 1];
      var last := b[|b| - 1];
      assert b[|a|..][|b| - 1 - |a|] == last;
      assert last.name != n;
      assert front[..|a|] == a;
      assert b == front + [last];
      CountAppend(front, last, n);
      ReadAppend(front, last, n);
      ReadExtend(a, front, n);
    } else {
      assert b == a;
    }
  }

  /**
   * The `try: crx.getinfo(p) except KeyError: crx.writestr(p, d)` idiom:
   * write `d` under `p` only when no entry is named `p` yet. An existing
   * entry is never overwritten, and `p` ends up present at most as often as
   * before, or exactly once if it was absent.
   */
  function PutIfAbsent(a: Archive, p: string, d: string): (r: Archive)
    ensures Has(r, p)
    ensures Read(r, p) == if Has(a, p) then Read(a, p) else Some(d)
    ensures CountName(r, p) == if Has(a, p) then CountName(a, p) else 1
    ensures |a| <= |r| && r[..|a|] == a
  {
    if Has(a, p) then a
    else
      CountAppend(a, Entry(p, d), p);
      ReadAppend(a, Entry(p, d), p);
      assert (a + [Entry(p, d)])[..|a|] == a;
      a + [Entry(p, d)]
  }

  /** Every other name keeps its count and its data. */
  lemma PutIfAbsentOthers(a: Archive, p: string, d: string, n: string)
    requires n != p
    ensures CountName(PutIfAbsent(a, p, d), n) == CountName(a, n) && Read(PutIfAbsent(a, p, d), n) == Read(a, n)
  {
    if !Has(a, p) {
      CountAppend(a, Entry(p, d), n);
      ReadAppend(a, Entry(p, d), n);
    }
  }
}
