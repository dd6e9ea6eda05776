/**
 File names and (name, size) entries shared by the web server's cache and its
 largest-file-first list (webserver/server_thread.c).
 */
module Files {

  /** A byte of a C string: any value but the terminating NUL. */
  newtype NameChar = c: int | 1 <= c < 256 witness 65

  /** A file name: the bytes before the terminator, so two names are `strcmp`-equal iff equal. */
  type Name = seq<NameChar>

  /** A file name with its size in bytes: an LFF-list node or a cached file. */
  datatype Entry = Entry(name: Name, size: nat)

  /** The names of a list of entries, with multiplicity. */
  function Names(es: seq<Entry>): multiset<Name>
    decreases |es|
  {
    if |es| == 0 then multiset{} else multiset{es[0].name} + Names(es[1..])
  }

  /** The bytes a list of entries accounts for. */
  function Total(es: seq<Entry>): nat
    decreases |es|
  {
    if |es| == 0 then 0 else es[0].size + Total(es[1..])
  }

  lemma {:induction false} NamesConcat(a: seq<Entry>, b: seq<Entry>)
    ensures Names(a + b) == Names(a) + Names(b)
    decreases |a|
  {
    if |a| == 0 {
      assert a + b == b;
    } else {
      var ab := a + b;
      assert ab[0] == a[0] && ab[1..] == a[1..] + b;
      NamesConcat(a[1..], b);
      calc {
        Names(ab);
        multiset{a[0].name} + Names(a[1..] + b);
        multiset{a[0].name} + (Names(a[1..]) + Names(b));
      }
    }
  }

  lemma {:induction false} TotalConcat(a: seq<Entry>, b: seq<Entry>)
    ensures Total(a + b) == Total(a) + Total(b)
    decreases |a|
  {
    if |a| == 0 {
      assert a + b == b;
    } else {
      var ab := a + b;
      assert ab[0] == a[0] && ab[1..] == a[1..] + b;
      TotalConcat(a[1..], b);
    }
  }

  /** A name occurs in the multiset exactly when some entry carries it. */
  lemma {:induction false} InNames(es: seq<Entry>, n: Name)
    ensures n in Names(es) <==> exists i :: 0 <= i < |es| && es[i].name == n
    decreases |es|
  {
    if |es| > 0 {
      InNames(es[1..], n);
      if n in Names(es[1..]) {
        var i :| 0 <= i < |es[1..]| && es[1..][i].name == n;
        assert es[i + 1].name == n;
      }
      if exists i :: 0 <= i < |es| && es[i].name == n {
        var i :| 0 <= i < |es| && es[i].name == n;
        if i > 0 {
          assert es[1..][i - 1].name == n;
        }
      }
    }
  }

  /** Deleting position `k` removes one copy of its name and its size. */
  lemma DeleteAt(es: seq<Entry>, k: nat)
    requires k < |es|
    ensures Names(es) == Names(es[..k] + es[k + 1..]) + multiset{es[k].name}
    ensures Total(es) == Total(es[..k] + es[k + 1..]) + es[k].size
  {
    var a, b := es[..k], es[k + 1..];
    var tl := es[k..];
    assert es == a + tl;
    assert tl[0] == es[k] && tl[1..] == b;
    NamesConcat(a, b);
    NamesConcat(a, tl);
    TotalConcat(a, b);
    TotalConcat(a, tl);
  }

  /** Position of the first entry named `n`, or `|es|` when there is none: a `strcmp` walk. */
  function FindName(es: seq<Entry>, n: Name): (k: nat)
    ensures k <= |es|
    ensures forall i :: 0 <= i < k ==> es[i].name != n
    ensures k < |es| ==> es[k].name == n
    decreases |es|
  {
    if |es| == 0 || es[0].name == n then 0 else 1 + FindName(es[1..], n)
  }

  /** The walk finds the name exactly when the name is among the entries. */
  lemma FoundIffPresent(es: seq<Entry>, n: Name)
    ensures FindName(es, n) < |es| <==> n in Names(es)
  {
    InNames(es, n);
  }
}
