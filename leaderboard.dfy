/**
 * `LeaderboardSize`: the best times for one board size and mine count, kept
 * sorted in `leaders`, capped at `amountUsers` rows, and saved in the
 * browser's `localStorage` under a key made of the board's dimensions.
 *
 * The saved form has two layers: every row becomes `btoa(name + "|" + time)`,
 * the rows are joined with "|", and the whole is passed through `btoa`
 * once more.
 */
module Leaderboard {
  import opened Text
  import opened Base64
  import opened TimeFormat

  /** A row of `leaders`: the username, the time in milliseconds, and that time as shown. */
  datatype Entry = Entry(name: string, time: int, display: string)

  predicate Sorted(es: seq<Entry>) {
    forall i, j | 0 <= i < j < |es| :: es[i].time <= es[j].time
  }

  /** The index at which `add_user` inserts a time: the first row strictly slower, or the end. */
  function Slot(es: seq<Entry>, time: int): (i: nat)
    ensures i <= |es|
    ensures forall k | 0 <= k < i :: es[k].time <= time
    ensures i < |es| ==> time < es[i].time
  {
    if |es| == 0 || time < es[0].time then 0 else 1 + Slot(es[1..], time)
  }

  /** The rows after `add_user`: e spliced in at its slot, then the last row popped if over the cap. */
  function Inserted(es: seq<Entry>, e: Entry, cap: int): seq<Entry> {
    var i := Slot(es, e.time);
    var grown := es[..i] + [e] + es[i..];
    if |grown| > cap then grown[..|grown| - 1] else grown
  }

  /** A sorted table stays sorted. */
  lemma InsertedSorted(es: seq<Entry>, e: Entry, cap: int)
    requires Sorted(es)
    ensures Sorted(Inserted(es, e, cap))
  {
    var i := Slot(es, e.time);
    var grown := es[..i] + [e] + es[i..];
    forall a, b | 0 <= a < b < |grown| ensures grown[a].time <= grown[b].time {
      SpliceAt(es, e, i, a);
      SpliceAt(es, e, i, b);
    }
    var r := Inserted(es, e, cap);
    assert forall a | 0 <= a < |r| :: r[a] == grown[a];
  }

  /** The rows of a table with e spliced in at i. */
  lemma SpliceAt(es: seq<Entry>, e: Entry, i: int, a: int)
    requires 0 <= i <= |es| && 0 <= a <= |es|
    ensures (es[..i] + [e] + es[i..])[a] == if a < i then es[a] else if a == i then e else es[a - 1]
  {
  }

  /** A table within its cap grows by one row until it is full, and then keeps its length. */
  lemma InsertedLength(es: seq<Entry>, e: Entry, cap: int)
    requires |es| <= cap
    ensures |Inserted(es, e, cap)| == if |es| + 1 <= cap then |es| + 1 else cap
  {
  }

  /**
   * The new row stays unless the table was full and it is the slowest; the
   * old rows that remain are the fastest ones, in their old order.
   */
  lemma InsertedOrder(es: seq<Entry>, e: Entry, cap: int)
    requires |es| <= cap
    ensures var r, i := Inserted(es, e, cap), Slot(es, e.time);
      && (i < |r| <==> |es| < cap || i < |es|)
      && (i < |r| ==> r[i] == e && r[..i] + r[i + 1..] == es[..|r| - 1])
      && (i >= |r| ==> r == es)
  {
    var r, i := Inserted(es, e, cap), Slot(es, e.time);
    var grown := es[..i] + [e] + es[i..];
    var n := if |grown| > cap then |es| else |es| + 1;
    assert r == grown[..n] && |r| == n;
    if i < n {
      SpliceTake(es, e, i, n);
      assert r[i] == e && r[..i] + r[i + 1..] == es[..n - 1];
    } else {
      assert r == es;
    }
  }

  /** The first n rows after a splice at i < n: e at i, around it the first n - 1 old rows. */
  lemma SpliceTake(es: seq<Entry>, e: Entry, i: int, n: int)
    requires 0 <= i < n <= |es| + 1
    ensures var g := (es[..i] + [e] + es[i..])[..n];
      g[i] == e && g[..i] + g[i + 1..] == es[..n - 1]
  {
    var g := (es[..i] + [e] + es[i..])[..n];
    assert g[..i] == es[..i];
    assert g[i + 1..] == es[i..n - 1];
  }

  /** The new row lands after every row with the same time and, in a sorted table, before every slower one. */
  lemma InsertedStable(es: seq<Entry>, e: Entry, cap: int)
    ensures var r, i := Inserted(es, e, cap), Slot(es, e.time);
      && (forall k | 0 <= k < i && k < |r| :: r[k].time <= e.time)
      && (Sorted(es) ==> forall k | i < k < |r| :: e.time < r[k].time)
  {
    var r, i := Inserted(es, e, cap), Slot(es, e.time);
    var grown := es[..i] + [e] + es[i..];
    assert r == grown[..|r|];
    forall k | 0 <= k < i && k < |r| ensures r[k].time <= e.time {
      assert r[k] == es[k];
    }
    if Sorted(es) {
      forall k | i < k < |r| ensures e.time < r[k].time {
        assert r[k] == es[k - 1];
      }
    }
  }

  /** The key `localStorage` holds a table under: "LEADERBOARD_SIZE_" and the width, height and mine count. */
  function Key(width: int, height: int, amountMines: int): string {
    "LEADERBOARD_SIZE_" + IntToString(width) + "_" + IntToString(height) + "_" + IntToString(amountMines)
  }

  /** A number written out is a minus sign and digits, so it holds no "_". */
  lemma NoUnderscore(i: int)
    ensures '_' !in IntToString(i)
  {
    var digits := IntToString(i);
    forall k | 0 <= k < |digits| ensures digits[k] != '_' {
      if k > 0 || i >= 0 {
        assert IsDigit(digits[k]);
      }
    }
  }

  /** The key is the prefix followed by the three numbers joined with "_". */
  lemma KeyFields(width: int, height: int, amountMines: int)
    ensures Key(width, height, amountMines)
         == "LEADERBOARD_SIZE_" + Join([IntToString(width), IntToString(height), IntToString(amountMines)], '_')
  {
    var fields := [IntToString(width), IntToString(height), IntToString(amountMines)];
    var tail := fields[1..];
    assert tail[1..] == [fields[2]];
    assert Join(tail, '_') == fields[1] + "_" + fields[2];
    assert Join(fields, '_') == fields[0] + "_" + (fields[1] + "_" + fields[2]);
  }

  /** Every board setup has a key of its own: equal keys mean equal width, height and mine count. */
  lemma KeyDistinct(width: int, height: int, amountMines: int, width': int, height': int, amountMines': int)
    requires Key(width, height, amountMines) == Key(width', height', amountMines')
    ensures width == width' && height == height' && amountMines == amountMines'
  {
    var prefix := "LEADERBOARD_SIZE_";
    var fields := [IntToString(width), IntToString(height), IntToString(amountMines)];
    var fields' := [IntToString(width'), IntToString(height'), IntToString(amountMines')];
    KeyFields(width, height, amountMines);
    KeyFields(width', height', amountMines');
    var key := Key(width, height, amountMines);
    assert Join(fields, '_') == key[|prefix|..] == Join(fields', '_');
    NoUnderscore(width);
    NoUnderscore(height);
    NoUnderscore(amountMines);
    NoUnderscore(width');
    NoUnderscore(height');
    NoUnderscore(amountMines');
    SplitJoin(fields, '_');
    SplitJoin(fields', '_');
    assert fields == fields';
    ParseIntOfString(width);
    ParseIntOfString(height);
    ParseIntOfString(amountMines);
    ParseIntOfString(width');
    ParseIntOfString(height');
    ParseIntOfString(amountMines');
  }

  /** The inner layer of one row before encoding. */
  function Item(e: Entry): (r: string)
    ensures Latin1(r) <==> Latin1(e.name)
  {
    var digits := IntToString(e.time);
    TimeDigits(e.time);
    var r := e.name + "|" + digits;
    assert Latin1(e.name) ==> Latin1(r);
    assert !Latin1(e.name) ==> !Latin1(r) by {
      if !Latin1(e.name) {
        var i :| 0 <= i < |e.name| && e.name[i] as int >= 256;
        assert r[i] == e.name[i];
      }
    }
    r
  }

  /** A time written out holds neither the divider nor a character above 255. */
  lemma TimeDigits(t: int)
    ensures Latin1(IntToString(t)) && '|' !in IntToString(t)
  {
    var digits := IntToString(t);
    forall i | 0 <= i < |digits| ensures digits[i] as int < 256 && digits[i] != '|' {
      if i > 0 || t >= 0 {
        assert IsDigit(digits[i]);
      }
    }
  }

  /**
   * The string the loop of `set_to_localstorage` builds: every row encoded
   * and followed by "|"; None when `btoa` throws on a row.
   */
  function Listing(es: seq<Entry>): (r: Option<string>)
    ensures r.Some? ==> Latin1(r.value)
  {
    if |es| == 0 then Some("")
    else match (Listing(es[..|es| - 1]), Btoa(Item(es[|es| - 1])))
      case (Some(v), Some(b)) =>
        assert Latin1(v + b + "|");
        Some(v + b + "|")
      case _ => None
  }

  /** `value.substring(0, value.length - 1)`: the last character dropped, "" stays "". */
  function DropLast(v: string): string {
    if |v| == 0 then "" else v[..|v| - 1]
  }

  /** What `set_to_localstorage` stores; None when `btoa` throws and nothing is stored. */
  function Serialised(es: seq<Entry>): Option<string> {
    match Listing(es)
      case None => None
      case Some(v) => Btoa(DropLast(v))
  }

  datatype Row = Unreadable | Skipped | Read(e: Entry)

  /**
   * One part of the outer layer: Unreadable where `atob` throws, Skipped when
   * its decoding does not split into exactly two fields or the time is not
   * a number, else the row with its time shown by `_convert_time_to_string`.
   */
  function ParseRow(part: string, divider: char): (r: Row)
    ensures r.Unreadable? <==> Atob(part).None?
    ensures r.Read? ==>
      && divider !in r.e.name && r.e.display == ConvertTimeToString(r.e.time)
      && exists rest | ParseInt(rest) == Some(r.e.time) :: Atob(part) == Some(r.e.name + [divider] + rest)
  {
    match Atob(part)
      case None => Unreadable
      case Some(data) =>
        var fields := Split(data, divider);
        if |fields| != 2 then Skipped
        else match ParseInt(fields[1])
          case None => Skipped
          case Some(t) =>
            JoinSplit(data, divider);
            assert data == fields[0] + [divider] + fields[1];
            Read(Entry(fields[0], t, ConvertTimeToString(t)))
  }

  /** The rows read, and whether the reading got to the end without `atob` throwing. */
  datatype Load = Load(entries: seq<Entry>, complete: bool)

  /** Every part read on its own. */
  function Rows(parts: seq<string>, divider: char): (r: seq<Row>)
    ensures |r| == |parts|
  {
    if |parts| == 0 then []
    else Rows(parts[..|parts| - 1], divider) + [ParseRow(parts[|parts| - 1], divider)]
  }

  /** The loop of `get_from_localstorage`: the rows read in order, up to the first unreadable part. */
  function Gather(rows: seq<Row>): Load {
    if |rows| == 0 then Load([], true) else Next(Gather(rows[..|rows| - 1]), rows[|rows| - 1])
  }

  /** One pass of that loop: a read row is appended, a skipped one ignored, an unreadable one ends the reading. */
  function Next(prev: Load, row: Row): Load {
    if !prev.complete then prev
    else match row
      case Unreadable => Load(prev.entries, false)
      case Skipped => prev
      case Read(e) => Load(prev.entries + [e], true)
  }

  /** Everything `get_from_localstorage` reads from a stored value. */
  function Loaded(stored: string, divider: char): Load {
    match Atob(stored)
      case None => Load([], false)
      case Some(data) => Gather(Rows(Split(data, divider), divider))
  }

  /** The rows as they come back: the same names and times, each time shown afresh. */
  function Redisplayed(es: seq<Entry>): (r: seq<Entry>)
    ensures |r| == |es|
    ensures forall k | 0 <= k < |es| :: r[k].name == es[k].name && r[k].time == es[k].time
  {
    if |es| == 0 then []
    else
      var last := es[|es| - 1];
      Redisplayed(es[..|es| - 1]) + [Entry(last.name, last.time, ConvertTimeToString(last.time))]
  }

  /** Rows the saved form can carry: names of bytes only, without the divider. */
  predicate Storable(es: seq<Entry>) {
    forall k | 0 <= k < |es| :: Latin1(es[k].name) && '|' !in es[k].name
  }

  /** The encoded rows of a storable table. */
  function Encodings(es: seq<Entry>): (r: seq<string>)
    requires Storable(es)
    ensures |r| == |es| && forall k | 0 <= k < |r| :: '|' !in r[k]
  {
    if |es| == 0 then []
    else
      var init := es[..|es| - 1];
      assert Storable(init);
      Encodings(init) + [Btoa(Item(es[|es| - 1])).value]
  }

  /** Every row is saved exactly when every name is made of bytes. */
  lemma {:induction false} ListingSome(es: seq<Entry>)
    requires Storable(es)
    ensures Listing(es) == Some(Concat(Encodings(es)))
    decreases |es|
  {
    if |es| > 0 {
      var n := |es|;
      var init := es[..n - 1];
      assert Storable(init);
      ListingSome(init);
      var xs := Encodings(es);
      assert xs[..n - 1] == Encodings(init);
    }
  }

  /** The parts followed each by "|". */
  function Concat(xs: seq<string>): string {
    if |xs| == 0 then "" else Concat(xs[..|xs| - 1]) + xs[|xs| - 1] + "|"
  }

  lemma {:induction false} ConcatJoin(xs: seq<string>)
    requires 1 <= |xs|
    ensures DropLast(Concat(xs)) == Join(xs, '|')
    decreases |xs|
  {
    if |xs| > 1 {
      var init := xs[..|xs| - 1];
      ConcatJoin(init);
      JoinSnoc(init, xs[|xs| - 1], '|');
      assert init + [xs[|xs| - 1]] == xs;
    }
  }

  lemma {:induction false} JoinSnoc(xs: seq<string>, x: string, c: char)
    requires 1 <= |xs|
    ensures Join(xs + [x], c) == Join(xs, c) + [c] + x
    decreases |xs|
  {
    if |xs| > 1 {
      assert (xs + [x])[1..] == xs[1..] + [x];
      JoinSnoc(xs[1..], x, c);
    }
  }

  /** Reading back one encoded row gives the row, its time shown afresh. */
  lemma ParseRowItem(e: Entry)
    requires Latin1(e.name) && '|' !in e.name
    ensures ParseRow(Btoa(Item(e)).value, '|') == Read(Entry(e.name, e.time, ConvertTimeToString(e.time)))
  {
    var digits := IntToString(e.time);
    TimeDigits(e.time);
    ItemJoin(e);
    AtobBtoa(Item(e));
    SplitJoin([e.name, digits], '|');
    ParseIntOfString(e.time);
  }

  lemma ItemJoin(e: Entry)
    ensures Item(e) == Join([e.name, IntToString(e.time)], '|')
  {
    assert [e.name, IntToString(e.time)][1..] == [IntToString(e.time)];
  }

  lemma {:induction false} ParseEncodings(es: seq<Entry>)
    requires Storable(es)
    ensures Gather(Rows(Encodings(es), '|')) == Load(Redisplayed(es), true)
    decreases |es|
  {
    if |es| > 0 {
      var init := es[..|es| - 1];
      ParseEncodings(init);
      assert Encodings(es)[..|es| - 1] == Encodings(init);
      ParseRowItem(es[|es| - 1]);
    }
  }

  /**
   * Saving and loading again gives back every row, in order, with its name
   * and time; an empty table comes back empty, as its single empty part
   * does not split into two fields.
   */
  lemma RoundTrip(es: seq<Entry>)
    requires Storable(es)
    ensures Serialised(es).Some?
    ensures Loaded(Serialised(es).value, '|') == Load(Redisplayed(es), true)
  {
    ListingSome(es);
    var inner := DropLast(Concat(Encodings(es)));
    AtobBtoa(inner);
    ReadInner(es);
  }

  /** The inner layer, split at the dividers, reads back as the table. */
  lemma ReadInner(es: seq<Entry>)
    requires Storable(es)
    ensures Gather(Rows(Split(DropLast(Concat(Encodings(es))), '|'), '|')) == Load(Redisplayed(es), true)
  {
    var xs := Encodings(es);
    if |es| == 0 {
      EmptyRead();
    } else {
      ConcatJoin(xs);
      SplitJoin(xs, '|');
      ParseEncodings(es);
    }
  }

  /** The empty inner layer is a single empty part, which does not split into two fields. */
  lemma EmptyRead()
    ensures Gather(Rows(Split("", '|'), '|')) == Load([], true)
  {
    assert Split("", '|') == [""];
    assert ParseRow("", '|') == Skipped by {
      assert Unpad("") == "";
      assert Atob("") == Some("");
    }
    assert Rows([""], '|') == [Skipped];
    assert Gather([Skipped]) == Load([], true);
  }

  /** A saved table is refused exactly when some name holds a character above 255. */
  lemma SerialisedNone(es: seq<Entry>)
    ensures Serialised(es).None? <==> exists k | 0 <= k < |es| :: !Latin1(es[k].name)
  {
    ListingNone(es);
  }

  lemma {:induction false} ListingNone(es: seq<Entry>)
    ensures Listing(es).None? <==> exists k | 0 <= k < |es| :: !Latin1(es[k].name)
    decreases |es|
  {
    if |es| > 0 {
      var init := es[..|es| - 1];
      var last := es[|es| - 1];
      ListingNone(init);
      assert Btoa(Item(last)).None? <==> !Latin1(last.name);
      assert Listing(es).None? <==> Listing(init).None? || Btoa(Item(last)).None?;
      BadNameSplit(es);
    }
  }

  lemma BadNameSplit(es: seq<Entry>)
    requires |es| > 0
    ensures var init := es[..|es| - 1];
      (exists k | 0 <= k < |es| :: !Latin1(es[k].name))
        <==> (exists k | 0 <= k < |init| :: !Latin1(init[k].name)) || !Latin1(es[|es| - 1].name)
  {
    var init := es[..|es| - 1];
    if exists k | 0 <= k < |init| :: !Latin1(init[k].name) {
      var k :| 0 <= k < |init| && !Latin1(init[k].name);
      assert es[k] == init[k];
    }
    if exists k | 0 <= k < |es| :: !Latin1(es[k].name) {
      var k :| 0 <= k < |es| && !Latin1(es[k].name);
      if k < |init| {
        assert init[k] == es[k];
      }
    }
  }

  /** The browser's `localStorage`: string values under string keys. */
  class Storage {
    var items: map<string, string>

    constructor (items: map<string, string>)
      ensures this.items == items
    {
      this.items := items;
    }

    /** `localStorage.getItem(key)`: None for a missing key. */
    method GetItem(key: string) returns (r: Option<string>)
      ensures r.Some? <==> key in items
      ensures r.Some? ==> r.value == items[key]
    {
      if key in items {
        r := Some(items[key]);
      } else {
        r := None;
      }
    }

    /** `localStorage.setItem(key, value)`: the key now maps to value, every other key is kept. */
    method SetItem(key: string, value: string)
      modifies this
      ensures items == old(items)[key := value]
    {
      items := items[key := value];
    }
  }

  class LeaderboardSize {
    const amountMines: int
    const width: int
    const height: int
    const amountUsers: int
    const lsKey: string
    const divider: char
    const store: Storage
    var leaders: seq<Entry>

    /**
     * The constructor: the key from the dimensions, then the rows read from
     * `localStorage` (`get_from_localstorage`).
     */
    constructor (amountMines: int, width: int, height: int, store: Storage,
                 divider: char := '|', amountUsers: int := 10)
      modifies store
      ensures this.amountMines == amountMines && this.width == width && this.height == height
      ensures this.store == store && this.divider == divider && this.amountUsers == amountUsers
      ensures lsKey == Key(width, height, amountMines)
      ensures lsKey !in old(store.items) ==> leaders == [] && store.items == old(store.items)[lsKey := ""]
      ensures lsKey in old(store.items) ==>
        leaders == Loaded(old(store.items)[lsKey], divider).entries && store.items == old(store.items)
    {
      this.amountMines := amountMines;
      this.width := width;
      this.height := height;
      this.amountUsers := amountUsers;
      this.lsKey := Key(width, height, amountMines);
      this.divider := divider;
      this.store := store;
      leaders := [];
      new;
      var _ := GetFromLocalStorage();
    }

    /**
     * `get_from_localstorage`: an empty entry is created under a missing key;
     * otherwise the rows read are appended to `leaders`. `complete` is false
     * where `atob` throws, which ends the reading with the rows read so far.
     */
    method GetFromLocalStorage() returns (complete: bool)
      modifies this`leaders, store
      ensures lsKey !in old(store.items) ==>
        complete && leaders == old(leaders) && store.items == old(store.items)[lsKey := ""]
      ensures lsKey in old(store.items) ==>
        && store.items == old(store.items)
        && leaders == old(leaders) + Loaded(old(store.items)[lsKey], divider).entries
        && complete == Loaded(old(store.items)[lsKey], divider).complete
    {
      var stored := store.GetItem(lsKey);
      if stored.None? {
        store.SetItem(lsKey, "");
        return true;
      }
      var data := Atob(stored.value);
      if data.None? {
        return false;
      }
      complete := ReadParts(Split(data.value, divider));
    }

    /** The loop of `get_from_localstorage` over the parts of the outer layer. */
    method ReadParts(parts: seq<string>) returns (complete: bool)
      modifies this`leaders
      ensures leaders == old(leaders) + Gather(Rows(parts, divider)).entries
      ensures complete == Gather(Rows(parts, divider)).complete
    {
      ghost var rows := Rows(parts, divider);
      var user := 0;
      while user < |parts|
        invariant 0 <= user <= |parts|
        invariant Gather(rows[..user]).complete
        invariant leaders == old(leaders) + Gather(rows[..user]).entries
      {
        var row := ParsePart(parts, user, rows);
        assert rows[..user + 1][..user] == rows[..user];
        if row.Unreadable? {
          IncompleteStays(rows, user + 1, |parts|);
          assert rows[..|parts|] == rows;
          return false;
        }
        if row.Read? {
          ghost var prev := Gather(rows[..user]).entries;
          AppendOne(old(leaders), prev, row.e);
          leaders := leaders + [row.e];
        }
        user := user + 1;
      }
      assert rows[..user] == rows;
      complete := true;
    }

    /** One part of the outer layer read. */
    method ParsePart(parts: seq<string>, user: int, ghost rows: seq<Row>) returns (row: Row)
      requires 0 <= user < |parts| && rows == Rows(parts, divider)
      ensures row == rows[user]
    {
      row := ParseRow(parts[user], divider);
      RowsAt(parts, user, divider);
    }

    /**
     * `set_to_localstorage`: builds the two-layer form of `leaders` and
     * stores it under the key; `saved` is false where `btoa` throws on a
     * name, and then nothing is stored.
     */
    method SetToLocalStorage() returns (saved: bool)
      modifies store
      ensures saved <==> Serialised(leaders).Some?
      ensures saved ==> store.items == old(store.items)[lsKey := Serialised(leaders).value]
      ensures !saved ==> store.items == old(store.items)
    {
      var value := "";
      var user := 0;
      while user < |leaders|
        invariant 0 <= user <= |leaders|
        invariant Listing(leaders[..user]) == Some(value)
      {
        assert leaders[..user + 1][..user] == leaders[..user];
        var encoded := Btoa(leaders[user].name + "|" + IntToString(leaders[user].time));
        if encoded.None? {
          ListingStop(leaders, user + 1);
          return false;
        }
        value := value + encoded.value + "|";
        user := user + 1;
      }
      assert leaders[..user] == leaders;
      value := DropLast(value);
      assert Latin1(value);
      var outer := Btoa(value);
      store.SetItem(lsKey, outer.value);
      saved := true;
    }

    /**
     * `add_user`: the new row goes before the first strictly slower row, or
     * at the end; a table over its cap loses its last row; then the table is
     * saved. The table display is not modelled.
     */
    method AddUser(username: string, time: int, displayTime: string) returns (saved: bool)
      modifies this`leaders, store
      ensures leaders == Inserted(old(leaders), Entry(username, time, displayTime), amountUsers)
      ensures saved <==> Serialised(leaders).Some?
      ensures saved ==> store.items == old(store.items)[lsKey := Serialised(leaders).value]
      ensures !saved ==> store.items == old(store.items)
    {
      Insert(Entry(username, time, displayTime));
      saved := SetToLocalStorage();
    }

    /** The splicing and popping of `add_user`. */
    method Insert(entry: Entry)
      modifies this`leaders
      ensures leaders == Inserted(old(leaders), entry, amountUsers)
    {
      var addedUser := false;
      var user := 0;
      while user < |leaders|
        invariant 0 <= user <= |leaders| && leaders == old(leaders) && !addedUser
        invariant forall k | 0 <= k < user :: leaders[k].time <= entry.time
      {
        if entry.time < leaders[user].time {
          SlotAt(leaders, entry.time, user);
          leaders := leaders[..user] + [entry] + leaders[user..];
          addedUser := true;
          break;
        }
        user := user + 1;
      }
      if |leaders| == 0 {
        leaders := leaders + [entry];
      } else if !addedUser {
        SlotAt(leaders, entry.time, |leaders|);
        leaders := leaders[..|leaders|] + [entry];
      }
      if |leaders| > amountUsers {
        leaders := leaders[..|leaders| - 1];
      }
    }
  }

  /** The slot is the first index whose row is strictly slower. */
  lemma SlotAt(es: seq<Entry>, time: int, i: int)
    requires 0 <= i <= |es|
    requires forall k | 0 <= k < i :: es[k].time <= time
    requires i < |es| ==> time < es[i].time
    ensures Slot(es, time) == i
  {
  }

  /** Once one row cannot be encoded, the whole listing fails. */
  lemma {:induction false} ListingStop(es: seq<Entry>, n: int)
    requires 0 < n <= |es| && Listing(es[..n - 1]).Some? && Btoa(Item(es[n - 1])).None?
    ensures Listing(es).None?
  {
    ListingNone(es);
  }

  lemma AppendOne(a: seq<Entry>, b: seq<Entry>, e: Entry)
    ensures a + (b + [e]) == (a + b) + [e]
  {
  }

  lemma {:induction false} RowsAt(parts: seq<string>, n: int, divider: char)
    requires 0 <= n < |parts|
    ensures Rows(parts, divider)[n] == ParseRow(parts[n], divider)
    decreases |parts|
  {
    if n < |parts| - 1 {
      RowsAt(parts[..|parts| - 1], n, divider);
    }
  }

  /** An incomplete reading stays as it is for every longer list of rows. */
  lemma {:induction false} IncompleteStays(rows: seq<Row>, n: int, m: int)
    requires 0 < n <= m <= |rows|
    requires !Gather(rows[..n]).complete
    ensures Gather(rows[..m]) == Gather(rows[..n])
    decreases m - n
  {
    if n < m {
      IncompleteStays(rows, n, m - 1);
      assert rows[..m][..m - 1] == rows[..m - 1];
    }
  }
}
