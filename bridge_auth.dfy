/**
 * `git bug bridge auth`: one output line per stored credential, made of its
 * id, target, kind, the token value (tokens only) and its metadata rendered
 * as sorted `key:value` entries joined with `,`.
 */
module BridgeAuth {
  import opened Results
  import opened Sorting
  import opened Strings

  /** The concrete credential type, as far as the listing distinguishes it. */
  datatype Concrete = Token(value: string) | OtherKind

  datatype Credential = Credential(
    id: string,
    target: string,
    kind: string,
    concrete: Concrete,
    metadata: map<string, string>)

  function Entry(key: string, value: string): string {
    key + ":" + value
  }

  /** `order` is one visit of the map's keys, as `range` makes over a Go map: each key exactly once, in any order. */
  predicate EnumeratesKeys(meta: map<string, string>, order: seq<string>) {
    multiset(order) == multiset(meta.Keys)
  }

  /** A visit of the keys visits nothing but keys. */
  lemma VisitsOnlyKeys(meta: map<string, string>, order: seq<string>)
    requires EnumeratesKeys(meta, order)
    ensures forall k :: k in order ==> k in meta
  {
    forall k | k in order ensures k in meta {
      assert k in multiset(order);
    }
  }

  /** The entries of `meta`, visited in `order`. */
  function EntriesInOrder(meta: map<string, string>, order: seq<string>): (es: seq<string>)
    requires forall k :: k in order ==> k in meta
    ensures |es| == |order|
  {
    if order == [] then [] else [Entry(order[0], meta[order[0]])] + EntriesInOrder(meta, order[1..])
  }

  lemma {:induction false} EntryAt(meta: map<string, string>, order: seq<string>, i: nat)
    requires (forall k :: k in order ==> k in meta) && i < |order|
    ensures EntriesInOrder(meta, order)[i] == Entry(order[i], meta[order[i]])
  {
    if i > 0 {
      EntryAt(meta, order[1..], i - 1);
    }
  }

  /** One fixed visit of a set of keys. */
  ghost function SomeEnumeration(keys: set<string>): (order: seq<string>)
    ensures multiset(order) == multiset(keys) && |order| == |keys|
    ensures forall k :: k in order ==> k in keys
    decreases |keys|
  {
    if keys == {} then []
    else
      var k :| k in keys;
      var rest := SomeEnumeration(keys - {k});
      assert multiset(keys) == multiset(keys - {k}) + multiset{k};
      [k] + rest
  }

  /** The sorted `key:value` entries of a metadata map. */
  ghost function MetaEntries(meta: map<string, string>): seq<string> {
    SortedOf(EntriesInOrder(meta, SomeEnumeration(meta.Keys)))
  }

  /** The metadata column of a credential's line. */
  ghost function MetaText(meta: map<string, string>): string {
    Join(MetaEntries(meta), ",")
  }

  lemma {:induction false} EntriesConcat(meta: map<string, string>, a: seq<string>, b: seq<string>)
    requires forall k :: k in a + b ==> k in meta
    ensures EntriesInOrder(meta, a + b) == EntriesInOrder(meta, a) + EntriesInOrder(meta, b)
  {
    if a != [] {
      EntriesConcat(meta, a[1..], b);
      assert (a + b)[1..] == a[1..] + b;
    } else {
      assert a + b == b;
    }
  }

  /** Visiting the same keys as often in another order gives the same entries in another order. */
  lemma {:induction false} PermutedKeysPermutedEntries(meta: map<string, string>, o1: seq<string>, o2: seq<string>)
    requires (forall k :: k in o1 ==> k in meta) && multiset(o1) == multiset(o2)
    ensures forall k :: k in o2 ==> k in meta
    ensures multiset(EntriesInOrder(meta, o1)) == multiset(EntriesInOrder(meta, o2))
    decreases |o1|
  {
    SameKeys(meta, o1, o2);
    if o1 != [] {
      var j := RemovedAt(o1, o2);
      assert o1 == [o1[0]] + o1[1..];
      assert forall k :: k in o1[1..] ==> k in meta;
      PermutedKeysPermutedEntries(meta, o1[1..], o2[..j] + o2[j + 1..]);
      MovedEntry(meta, o1, o2, j);
    }
  }

  /** The induction step: the first key of `o1`, found at `j` in `o2`, contributes the same entry on both sides. */
  lemma MovedEntry(meta: map<string, string>, o1: seq<string>, o2: seq<string>, j: nat)
    requires o1 != [] && j < |o2| && o2[j] == o1[0]
    requires (forall k :: k in o1 ==> k in meta) && (forall k :: k in o2 ==> k in meta)
    requires multiset(EntriesInOrder(meta, o1[1..])) == multiset(EntriesInOrder(meta, o2[..j] + o2[j + 1..]))
    ensures multiset(EntriesInOrder(meta, o1)) == multiset(EntriesInOrder(meta, o2))
  {
    var x, left, right := o1[0], o2[..j], o2[j + 1..];
    assert o2 == left + [x] + right;
    var ex := Entry(x, meta[x]);
    var el, er := EntriesInOrder(meta, left), EntriesInOrder(meta, right);
    calc {
      multiset(EntriesInOrder(meta, o1));
      multiset([ex]) + multiset(EntriesInOrder(meta, o1[1..]));
      multiset([ex]) + multiset(EntriesInOrder(meta, left + right));
      { EntriesConcat(meta, left, right); }
      multiset([ex]) + multiset(el + er);
      { MultisetMiddle(el, ex, er); }
      multiset(el + [ex] + er);
      { EntriesAround(meta, left, x, right); }
      multiset(EntriesInOrder(meta, o2));
    }
  }

  lemma MultisetMiddle(a: seq<string>, x: string, b: seq<string>)
    ensures multiset(a + [x] + b) == multiset([x]) + multiset(a + b)
  {
  }

  lemma SameKeys(meta: map<string, string>, o1: seq<string>, o2: seq<string>)
    requires (forall k :: k in o1 ==> k in meta) && multiset(o1) == multiset(o2)
    ensures forall k :: k in o2 ==> k in meta
  {
    forall k | k in o2 ensures k in meta {
      assert k in multiset(o1);
    }
  }

  lemma EntriesAround(meta: map<string, string>, left: seq<string>, x: string, right: seq<string>)
    requires forall k :: k in left + [x] + right ==> k in meta
    ensures EntriesInOrder(meta, left + [x] + right)
         == EntriesInOrder(meta, left) + [Entry(x, meta[x])] + EntriesInOrder(meta, right)
  {
    EntriesConcat(meta, left + [x], right);
    EntriesConcat(meta, left, [x]);
  }

  /** Where the first element of `o1` sits in its permutation `o2`; the rest of `o1` is a permutation of `o2` without it. */
  lemma RemovedAt(o1: seq<string>, o2: seq<string>) returns (j: nat)
    requires o1 != [] && multiset(o1) == multiset(o2)
    ensures j < |o2| && o2[j] == o1[0]
    ensures multiset(o1[1..]) == multiset(o2[..j] + o2[j + 1..])
  {
    assert o1[0] in multiset(o2);
    j :| 0 <= j < |o2| && o2[j] == o1[0];
    assert o2 == o2[..j] + [o1[0]] + o2[j + 1..];
    assert o1 == [o1[0]] + o1[1..];
    assert multiset(o1[1..]) == multiset(o1) - multiset{o1[0]};
    assert multiset(o2) == multiset(o2[..j] + o2[j + 1..]) + multiset{o1[0]};
  }

  /**
   * Sorting the entries gathered in any visit order of the keys gives the
   * same list: the rendering does not depend on map iteration order.
   */
  lemma SortedEntriesAreMetaEntries(meta: map<string, string>, order: seq<string>, sorted: seq<string>)
    requires EnumeratesKeys(meta, order) && forall k :: k in order ==> k in meta
    requires Sorted(sorted) && multiset(sorted) == multiset(EntriesInOrder(meta, order))
    ensures sorted == MetaEntries(meta)
  {
    var canonical := SomeEnumeration(meta.Keys);
    PermutedKeysPermutedEntries(meta, order, canonical);
    SortedUnique(sorted, MetaEntries(meta));
  }

  /** One entry per metadata pair, and the entries are in increasing order. */
  lemma MetaEntriesShape(meta: map<string, string>)
    ensures |MetaEntries(meta)| == |meta|
    ensures Sorted(MetaEntries(meta))
  {
    var es := EntriesInOrder(meta, SomeEnumeration(meta.Keys));
    assert |multiset(MetaEntries(meta))| == |multiset(es)|;
  }

  /** Every pair appears as `key:value`. */
  lemma EveryPairHasAnEntry(meta: map<string, string>, k: string)
    requires k in meta
    ensures Entry(k, meta[k]) in MetaEntries(meta)
  {
    var order := SomeEnumeration(meta.Keys);
    var es := EntriesInOrder(meta, order);
    assert k in multiset(meta.Keys);
    assert k in multiset(order);
    var i :| 0 <= i < |order| && order[i] == k;
    EntryAt(meta, order, i);
    assert es[i] in multiset(es);
    assert es[i] in multiset(MetaEntries(meta));
  }

  /** Every entry is the `key:value` of some pair. */
  lemma EveryEntryIsAPair(meta: map<string, string>, e: string) returns (k: string)
    requires e in MetaEntries(meta)
    ensures k in meta && e == Entry(k, meta[k])
  {
    var order := SomeEnumeration(meta.Keys);
    var es := EntriesInOrder(meta, order);
    assert e in multiset(MetaEntries(meta));
    assert e in multiset(es);
    var i :| 0 <= i < |es| && es[i] == e;
    EntryAt(meta, order, i);
    k := order[i];
  }

  /** Empty metadata renders as the empty string. */
  lemma EmptyMetadata()
    ensures MetaText(map[]) == ""
  {
    assert |MetaEntries(map[])| == 0 by { MetaEntriesShape(map[]); }
  }

  /**
   * When no key or value contains `,`, the metadata column splits back into
   * exactly its sorted entries, one per pair.
   */
  lemma MetaTextSplits(meta: map<string, string>)
    requires meta != map[]
    requires forall k :: k in meta ==> ',' !in k && ',' !in meta[k]
    ensures Split(MetaText(meta), ',') == MetaEntries(meta)
    ensures |Split(MetaText(meta), ',')| == |meta|
  {
    MetaEntriesShape(meta);
    var es := MetaEntries(meta);
    forall i | 0 <= i < |es| ensures ',' !in es[i] {
      var k := EveryEntryIsAPair(meta, es[i]);
      assert es[i] == k + ":" + meta[k];
    }
    SplitJoin(es, ',');
  }

  /** The metadata column of one credential, built as the command does. */
  method FormatMetadata(meta: map<string, string>, order: seq<string>) returns (text: string)
    requires EnumeratesKeys(meta, order)
    ensures text == MetaText(meta)
  {
    VisitsOnlyKeys(meta, order);
    var entries := new string[|order|];
    for i := 0 to |order|
      invariant forall j :: 0 <= j < i ==> entries[j] == Entry(order[j], meta[order[j]])
    {
      var k := order[i];
      entries[i] := k + ":" + meta[k];
    }
    forall i | 0 <= i < |order| ensures entries[i] == EntriesInOrder(meta, order)[i] {
      EntryAt(meta, order, i);
    }
    assert entries[..] == EntriesInOrder(meta, order);
    SortStrings(entries);
    SortedEntriesAreMetaEntries(meta, order, entries[..]);
    text := Join(entries[..], ",");
  }

  /** The value column: a token shows its value, every other credential nothing. */
  function ValueColumn(c: Credential): (v: string)
    ensures c.concrete.Token? ==> v == c.concrete.value
    ensures v == "" || c.concrete.Token?
  {
    match c.concrete
    case Token(value) => value
    case OtherKind => ""
  }

  /** The five columns of a printed line, separated by spaces (colours and column padding aside). */
  function Columns(id: string, target: string, kind: string, value: string, metaText: string): string {
    id + " " + target + " " + kind + " " + value + " " + metaText + "\n"
  }

  /** A line ends with a newline and, when no column holds a space, splits back into its five columns. */
  lemma ColumnsSplit(id: string, target: string, kind: string, value: string, metaText: string)
    requires forall c :: c in [id, target, kind, value, metaText] ==> ' ' !in c
    ensures var line := Columns(id, target, kind, value, metaText);
      && |line| > 0 && line[|line| - 1] == '\n'
      && Split(line[..|line| - 1], ' ') == [id, target, kind, value, metaText]
  {
    var columns := [id, target, kind, value, metaText];
    var text := Join(columns, " ");
    SplitJoin(columns, ' ');
    assert text == id + " " + target + " " + kind + " " + value + " " + metaText by {
      assert Join([metaText], " ") == metaText;
      assert Join([value, metaText], " ") == value + " " + metaText by {
        assert [value, metaText][1..] == [metaText];
      }
      assert Join([kind, value, metaText], " ") == kind + " " + value + " " + metaText by {
        assert [kind, value, metaText][1..] == [value, metaText];
      }
      assert Join([target, kind, value, metaText], " ") == target + " " + kind + " " + value + " " + metaText by {
        assert [target, kind, value, metaText][1..] == [kind, value, metaText];
      }
      assert columns[1..] == [target, kind, value, metaText];
    }
    assert (text + "\n")[..|text|] == text;
  }

  /** The line printed for one credential. */
  ghost function LineOf(c: Credential): string {
    Columns(c.id, c.target, c.kind, ValueColumn(c), MetaText(c.metadata))
  }

  /** The loop body of `runBridgeAuth`: the line of one credential. */
  method FormatLine(cred: Credential, order: seq<string>) returns (line: string)
    requires EnumeratesKeys(cred.metadata, order)
    ensures line == LineOf(cred)
  {
    var value := "";
    match cred.concrete {
      case Token(v) => value := v;
      case OtherKind =>
    }
    var metaText := FormatMetadata(cred.metadata, order);
    line := Columns(cred.id, cred.target, cred.kind, value, metaText);
  }

  /** The lines of the listed credentials, one each, in the listed order. */
  method FormatLines(creds: seq<Credential>, orders: seq<seq<string>>) returns (lines: seq<string>)
    requires |orders| == |creds|
    requires forall i :: 0 <= i < |creds| ==> EnumeratesKeys(creds[i].metadata, orders[i])
    ensures |lines| == |creds|
    ensures forall i :: 0 <= i < |creds| ==> lines[i] == LineOf(creds[i])
  {
    lines := [];
    for i := 0 to |creds|
      invariant |lines| == i
      invariant forall j :: 0 <= j < i ==> lines[j] == LineOf(creds[j])
    {
      var line := FormatLine(creds[i], orders[i]);
      lines := lines + [line];
    }
  }

  /**
   * `runBridgeAuth`: a listing error is returned as is; otherwise one line per
   * credential, in the listed order. `orders[i]` is the order in which the
   * runtime happens to visit the metadata keys of credential `i`.
   */
  method RunBridgeAuth(listed: Result<seq<Credential>, string>, orders: seq<seq<string>>)
    returns (r: Result<seq<string>, string>)
    requires listed.Ok? ==> |orders| == |listed.value|
    requires listed.Ok? ==> forall i :: 0 <= i < |orders| ==> EnumeratesKeys(listed.value[i].metadata, orders[i])
    ensures listed.Err? ==> r == Err(listed.error)
    ensures listed.Ok? ==> r.Ok? && |r.value| == |listed.value|
    ensures listed.Ok? ==> forall i :: 0 <= i < |listed.value| ==> r.value[i] == LineOf(listed.value[i])
  {
    match listed {
      case Err(e) =>
        r := Err(e);
      case Ok(creds) =>
        var lines := FormatLines(creds, orders);
        r := Ok(lines);
    }
  }
}
