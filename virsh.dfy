/**
 * vmc.py's readers of `virsh` output.  The text a shell command printed is a
 * parameter; running the command is not part of the model.
 */
module Virsh {
  import opened Wrappers
  import opened Text
  import opened Numerals
  import opened OrderedMaps

  /** The non-empty pieces, in order. */
  function NonEmpty(pieces: seq<string>): (r: seq<string>)
    ensures forall i :: 0 <= i < |r| ==> r[i] != [] && r[i] in pieces
  {
    if pieces == [] then []
    else (if pieces[0] == [] then [] else [pieces[0]]) + NonEmpty(pieces[1..])
  }

  /** `[e for e in line.split(' ') if len(e) > 0]`: the words of a line, space-separated. */
  function Fields(line: string): (fs: seq<string>)
    ensures forall i :: 0 <= i < |fs| ==> fs[i] != [] && ' ' !in fs[i]
  {
    NonEmpty(Split(line, ' '))
  }

  /** Python's `lst[n:]`: nothing when the list is shorter than `n`. */
  function Drop<T>(s: seq<T>, n: nat): seq<T> {
    if |s| <= n then [] else s[n..]
  }

  /** The table rows of `virsh list --all`: the stripped text without its two header lines. */
  function ListRows(text: string): (rows: seq<string>)
    ensures forall i :: 0 <= i < |rows| ==> '\n' !in rows[i]
  {
    Drop(Split(Strip(text), '\n'), 2)
  }

  /** Name to running, in the order the names first appear. */
  type VmTable = OrderedMap<string, bool>

  /** What one row contributes: the domain name and whether it runs; None when the row has fewer than three fields. */
  type Entry = Option<(string, bool)>

  /** `_, name, state, *_ = fields`: the 2nd field and whether the 3rd is `running`. */
  function RowEntry(row: string): (e: Entry)
    ensures e.None? <==> |Fields(row)| < 3
  {
    var fs := Fields(row);
    if |fs| < 3 then None else Some((fs[1], fs[2] == "running"))
  }

  function Entries(rows: seq<string>): (es: seq<Entry>)
    ensures |es| == |rows| && forall i :: 0 <= i < |rows| ==> es[i] == RowEntry(rows[i])
  {
    seq(|rows|, i requires 0 <= i < |rows| => RowEntry(rows[i]))
  }

  /** One turn of `_get_vm_list`'s loop: `vms[name] = running`, or the ValueError of the unpacking. */
  function AddEntry(acc: Result<VmTable, Exception>, e: Entry): Result<VmTable, Exception> {
    match acc
    case Err(x) => Err(x)
    case Ok(t) => if e.None? then Err(ValueError) else Ok(Put(t, e.value.0, e.value.1))
  }

  /** The table `_get_vm_list` builds from the entries of the rows it reads. */
  function TableOf(entries: seq<Entry>): Result<VmTable, Exception> {
    if entries == [] then Ok([]) else AddEntry(TableOf(entries[..|entries| - 1]), Last(entries))
  }

  /** What `_get_vm_list` returns for the given output of `virsh list --all`. */
  function VmList(text: string): (r: Result<VmTable, Exception>)
    ensures r.Ok? ==> DistinctKeys(r.value)
    ensures r.Err? ==> r.error == ValueError
  {
    var entries := Entries(ListRows(text));
    TableFails(entries);
    if TableOf(entries).Ok? then TableDistinct(entries); TableOf(entries) else TableOf(entries)
  }

  /** Reading one more entry is one more turn of the loop. */
  lemma TableOfPrefix(entries: seq<Entry>, i: nat)
    requires i < |entries|
    ensures TableOf(entries[..i + 1]) == AddEntry(TableOf(entries[..i]), entries[i])
  {
    assert entries[..i + 1][..i] == entries[..i];
  }

  /** vmc.py's `_get_vm_list`, reading the given output of `virsh list --all`. */
  method GetVmList(text: string) returns (r: Result<VmTable, Exception>)
    ensures r == VmList(text)
  {
    var rows := ListRows(text);
    ghost var entries := Entries(rows);
    var vms: VmTable := [];
    for i := 0 to |rows|
      invariant TableOf(entries[..i]) == Ok(vms)
    {
      TableOfPrefix(entries, i);
      var info := Fields(rows[i]);
      if |info| < 3 {
        TableFailure(entries, i);
        return Err(ValueError);
      }
      vms := Put(vms, info[1], info[2] == "running");
    }
    assert entries[..|rows|] == entries;
    return Ok(vms);
  }

  /** Reading fails exactly when some row has fewer than three fields. */
  lemma {:induction false} TableFails(entries: seq<Entry>)
    ensures TableOf(entries).Err? <==> exists i :: 0 <= i < |entries| && entries[i].None?
    ensures TableOf(entries).Err? ==> TableOf(entries).error == ValueError
  {
    if entries != [] {
      var init := entries[..|entries| - 1];
      TableFails(init);
      assert forall i :: 0 <= i < |init| ==> init[i] == entries[i];
    }
  }

  lemma TableFailure(entries: seq<Entry>, i: nat)
    requires i < |entries| && entries[i].None?
    ensures TableOf(entries) == Err(ValueError)
  {
    TableFails(entries);
  }

  /** The entry names the domain `name`. */
  predicate NamesDomain(e: Entry, name: string) {
    e.Some? && e.value.0 == name
  }

  /** A table read without error grew by its last entry from the table of the entries before it. */
  lemma TableStep(entries: seq<Entry>)
    requires entries != [] && TableOf(entries).Ok?
    ensures TableOf(entries[..|entries| - 1]).Ok? && entries[|entries| - 1].Some?
    ensures var e := entries[|entries| - 1].value;
      TableOf(entries).value == Put(TableOf(entries[..|entries| - 1]).value, e.0, e.1)
  {
  }

  /** The table holds no name twice. */
  lemma {:induction false} TableDistinct(entries: seq<Entry>)
    requires TableOf(entries).Ok?
    ensures DistinctKeys(TableOf(entries).value)
  {
    if entries != [] {
      TableStep(entries);
      var init := entries[..|entries| - 1];
      TableDistinct(init);
      var e := Last(entries).value;
      PutDistinct(TableOf(init).value, e.0, e.1);
    }
  }

  /** A name is in the table exactly when some row names it. */
  lemma {:induction false} TableMembers(entries: seq<Entry>, name: string)
    requires TableOf(entries).Ok?
    ensures Get(TableOf(entries).value, name).Some? <==> exists i :: 0 <= i < |entries| && NamesDomain(entries[i], name)
  {
    if entries != [] {
      var init := entries[..|entries| - 1];
      TableGetStep(entries, name);
      TableMembers(init, name);
      NamesDomainSnoc(init, Last(entries), name);
      assert entries == init + [Last(entries)];
    }
  }

  /** Some entry of `init + [e]` names `name` exactly when one of `init` does or `e` does. */
  lemma NamesDomainSnoc(init: seq<Entry>, e: Entry, name: string)
    ensures (exists i :: 0 <= i < |init + [e]| && NamesDomain((init + [e])[i], name))
        <==> (exists i :: 0 <= i < |init| && NamesDomain(init[i], name)) || NamesDomain(e, name)
  {
    var entries := init + [e];
    if exists i :: 0 <= i < |entries| && NamesDomain(entries[i], name) {
      var i :| 0 <= i < |entries| && NamesDomain(entries[i], name);
      if i < |init| {
        assert init[i] == entries[i];
      }
    }
    if exists i :: 0 <= i < |init| && NamesDomain(init[i], name) {
      var i :| 0 <= i < |init| && NamesDomain(init[i], name);
      assert entries[i] == init[i];
    }
    assert entries[|init|] == e;
  }

  /** The running flag of a listed name comes from the last row that names it. */
  lemma {:induction false} TableLastRowWins(entries: seq<Entry>, i: nat, name: string)
    requires TableOf(entries).Ok?
    requires i < |entries| && NamesDomain(entries[i], name)
    requires forall j :: i < j < |entries| ==> !NamesDomain(entries[j], name)
    ensures Get(TableOf(entries).value, name) == Some(entries[i].value.1)
  {
    TableGetStep(entries, name);
    if i < |entries| - 1 {
      assert !NamesDomain(entries[|entries| - 1], name);
      LaterRowsOfPrefix(entries, i, name);
      TableLastRowWins(entries[..|entries| - 1], i, name);
    }
  }

  /** Looking a name up in a table: the last entry if it names it, else the table before it. */
  lemma TableGetStep(entries: seq<Entry>, name: string)
    requires entries != [] && TableOf(entries).Ok?
    ensures TableOf(entries[..|entries| - 1]).Ok?
    ensures Get(TableOf(entries).value, name)
         == if NamesDomain(Last(entries), name) then Some(Last(entries).value.1)
            else Get(TableOf(entries[..|entries| - 1]).value, name)
  {
    TableStep(entries);
    var e := Last(entries).value;
    PutGet(TableOf(entries[..|entries| - 1]).value, e.0, e.1, name);
  }

  /** Row `i` is still the last one naming `name` once the final row is dropped. */
  lemma LaterRowsOfPrefix(entries: seq<Entry>, i: nat, name: string)
    requires i < |entries| - 1 && NamesDomain(entries[i], name)
    requires forall j :: i < j < |entries| ==> !NamesDomain(entries[j], name)
    ensures var init := entries[..|entries| - 1];
      NamesDomain(init[i], name) && forall j :: i < j < |init| ==> !NamesDomain(init[j], name)
  {
    var init := entries[..|entries| - 1];
    assert init[i] == entries[i];
    forall j | i < j < |init| ensures !NamesDomain(init[j], name) {
      assert init[j] == entries[j];
    }
  }

  /** `n` spaces. */
  function Spaces(n: nat): string {
    if n == 0 then "" else " " + Spaces(n - 1)
  }

  /**
   * A line laid out in columns: `gaps[0]` spaces, then the words, each but
   * the last followed by one space and `gaps[i + 1]` more, then `gaps[|words|]`
   * spaces after the last word.
   */
  function Columns(words: seq<string>, gaps: seq<nat>): string
    requires |gaps| == |words| + 1
    decreases |words|
  {
    if words == [] then Spaces(gaps[0])
    else if |words| == 1 then Spaces(gaps[0]) + words[0] + Spaces(gaps[1])
    else Spaces(gaps[0]) + words[0] + " " + Columns(words[1..], gaps[1..])
  }

  /** Dropping the empty pieces of two lists, one after the other. */
  lemma {:induction false} NonEmptyAppend(a: seq<string>, b: seq<string>)
    ensures NonEmpty(a + b) == NonEmpty(a) + NonEmpty(b)
  {
    if a == [] {
      assert a + b == b;
    } else {
      assert (a + b)[0] == a[0];
      assert (a + b)[1..] == a[1..] + b;
      NonEmptyAppend(a[1..], b);
    }
  }

  lemma FieldsOfEmpty()
    ensures Fields("") == []
  {
    assert Split("", ' ') == [""];
    assert [""][1..] == [];
  }

  /** The fields on either side of a space, one after the other. */
  lemma FieldsConcat(p: string, q: string)
    ensures Fields(p + " " + q) == Fields(p) + Fields(q)
  {
    SplitConcat(p, q, ' ');
    NonEmptyAppend(Split(p, ' '), Split(q, ' '));
  }

  /** A non-empty word without a space is its own only field. */
  lemma FieldsOfWord(w: string)
    requires w != [] && ' ' !in w
    ensures Fields(w) == [w]
  {
    SplitWithoutSeparator(w, ' ');
    assert [w][1..] == [];
    assert NonEmpty([w]) == [w] + NonEmpty([]);
  }

  /** A space before a text adds no field. */
  lemma FieldsLeadSpace(s: string)
    ensures Fields(" " + s) == Fields(s)
  {
    assert " " + s == "" + [' '] + s;
    SplitConcat("", s, ' ');
    assert Split(" " + s, ' ') == [""] + Split(s, ' ');
    assert ([""] + Split(s, ' '))[1..] == Split(s, ' ');
  }

  /** Spaces before a text add no field. */
  lemma {:induction false} FieldsLead(n: nat, s: string)
    ensures Fields(Spaces(n) + s) == Fields(s)
  {
    if n == 0 {
      assert Spaces(n) + s == s;
    } else {
      FieldsLead(n - 1, s);
      Assoc(" ", Spaces(n - 1), s);
      FieldsLeadSpace(Spaces(n - 1) + s);
    }
  }

  /** Spaces after a text add no field. */
  lemma FieldsTrail(s: string, n: nat)
    ensures Fields(s + Spaces(n)) == Fields(s)
  {
    if n == 0 {
      assert s + Spaces(n) == s;
    } else {
      assert s + Spaces(n) == s + " " + Spaces(n - 1);
      FieldsConcat(s, Spaces(n - 1));
      FieldsLead(n - 1, "");
      assert Spaces(n - 1) + "" == Spaces(n - 1);
      FieldsOfEmpty();
    }
  }

  /** One word between padding. */
  lemma FieldsOfOneColumn(w: string, before: nat, after: nat)
    requires w != [] && ' ' !in w
    ensures Fields(Spaces(before) + w + Spaces(after)) == [w]
  {
    Assoc(Spaces(before), w, Spaces(after));
    FieldsLead(before, w + Spaces(after));
    FieldsTrail(w, after);
    FieldsOfWord(w);
  }

  /** A first word, a space, then the rest of the line. */
  lemma FieldsOfFirstColumn(w: string, before: nat, rest: string)
    requires w != [] && ' ' !in w
    ensures Fields(Spaces(before) + w + " " + rest) == [w] + Fields(rest)
  {
    assert Spaces(before) + w + " " + rest == Spaces(before) + (w + " " + rest);
    FieldsLead(before, w + " " + rest);
    FieldsConcat(w, rest);
    FieldsOfWord(w);
  }

  /** The fields of a line laid out in columns are its words, in order, however wide the gaps. */
  lemma {:induction false} FieldsOfColumns(words: seq<string>, gaps: seq<nat>)
    requires |gaps| == |words| + 1
    requires forall i :: 0 <= i < |words| ==> words[i] != [] && ' ' !in words[i]
    ensures Fields(Columns(words, gaps)) == words
    decreases |words|
  {
    if words == [] {
      FieldsLead(gaps[0], "");
      assert Spaces(gaps[0]) + "" == Spaces(gaps[0]);
      FieldsOfEmpty();
    } else if |words| == 1 {
      FieldsOfOneColumn(words[0], gaps[0], gaps[1]);
    } else {
      FieldsOfColumns(words[1..], gaps[1..]);
      FieldsOfFirstColumn(words[0], gaps[0], Columns(words[1..], gaps[1..]));
      assert words == [words[0]] + words[1..];
    }
  }

  /**
   * A row laid out in columns: with three or more, the entry is the second
   * column and whether the third is `running`; with fewer, there is none.
   */
  lemma RowEntryOfColumns(words: seq<string>, gaps: seq<nat>)
    requires |gaps| == |words| + 1
    requires forall i :: 0 <= i < |words| ==> words[i] != [] && ' ' !in words[i]
    ensures |words| >= 3 ==> RowEntry(Columns(words, gaps)) == Some((words[1], words[2] == "running"))
    ensures |words| < 3 ==> RowEntry(Columns(words, gaps)) == None
  {
    FieldsOfColumns(words, gaps);
  }

  /** A piece of the text left after leading whitespace is removed has no newline when the text has none. */
  lemma StripLeftNoNewline(h: string)
    requires '\n' !in h
    ensures '\n' !in StripLeft(h)
  {
    StripLeftSuffix(h);
    var k := |h| - |StripLeft(h)|;
    forall i | 0 <= i < |StripLeft(h)| ensures StripLeft(h)[i] != '\n' {
      assert StripLeft(h)[i] == h[k + i];
    }
  }

  /** Leading whitespace of output whose first line is not blank lies in that line. */
  lemma StripLeftHeaded(h1: string, rest: string)
    requires !AllSpace(h1)
    ensures StripLeft(h1 + "\n" + rest) == StripLeft(h1) + "\n" + rest
  {
    Assoc(h1, "\n", rest);
    StripLeftAppend(h1, "\n" + rest);
    Assoc(StripLeft(h1), "\n", rest);
  }

  /** Stripping output whose first line is not blank and whose end is not whitespace, then whitespace. */
  lemma StripHeaded(h1: string, tail: string, trail: string)
    requires !AllSpace(h1)
    requires tail != [] && !IsSpace(Last(tail))
    requires AllSpace(trail)
    ensures Strip(h1 + "\n" + tail + trail) == StripLeft(h1) + "\n" + tail
  {
    var y := StripLeft(h1) + "\n" + tail;
    Assoc(h1 + "\n", tail, trail);
    StripLeftHeaded(h1, tail + trail);
    Assoc(StripLeft(h1) + "\n", tail, trail);
    assert Last(y) == Last(tail);
    StripRightTrail(y, trail);
  }

  /** A newline-free line, then the rows: the split gives that line, then the rows. */
  lemma SplitLineThenRows(h: string, rows: seq<string>)
    requires '\n' !in h
    requires rows != [] && forall i :: 0 <= i < |rows| ==> '\n' !in rows[i]
    ensures Split(h + "\n" + Join(rows, "\n"), '\n') == [h] + rows
  {
    SplitJoin(rows, '\n');
    SplitWithoutSeparator(h, '\n');
    SplitConcat(h, Join(rows, "\n"), '\n');
  }

  /** Two newline-free header lines, then the rows: the split gives the headers, then the rows. */
  lemma SplitHeaded(h1: string, h2: string, rows: seq<string>)
    requires '\n' !in h1 && '\n' !in h2
    requires rows != [] && forall i :: 0 <= i < |rows| ==> '\n' !in rows[i]
    ensures Split(h1 + "\n" + (h2 + "\n" + Join(rows, "\n")), '\n') == [h1, h2] + rows
  {
    SplitLineThenRows(h2, rows);
    SplitWithoutSeparator(h1, '\n');
    SplitConcat(h1, h2 + "\n" + Join(rows, "\n"), '\n');
  }

  /**
   * Output made of two header lines, the table rows and trailing whitespace:
   * `_get_vm_list` reads exactly those rows, in order.
   */
  lemma ListRowsOf(h1: string, h2: string, rows: seq<string>, trail: string)
    requires !AllSpace(h1) && '\n' !in h1 && '\n' !in h2
    requires rows != [] && forall i :: 0 <= i < |rows| ==> '\n' !in rows[i]
    requires Last(rows) != [] && !IsSpace(Last(Last(rows)))
    requires AllSpace(trail)
    ensures ListRows(h1 + "\n" + h2 + "\n" + Join(rows, "\n") + trail) == rows
    ensures VmList(h1 + "\n" + h2 + "\n" + Join(rows, "\n") + trail) == TableOf(Entries(rows))
  {
    var tail := h2 + "\n" + Join(rows, "\n");
    JoinEnd(rows, "\n");
    Assoc(h1 + "\n", h2, "\n");
    Assoc(h1 + "\n", h2 + "\n", Join(rows, "\n"));
    StripHeaded(h1, tail, trail);
    StripLeftNoNewline(h1);
    SplitHeaded(StripLeft(h1), h2, rows);
  }

  /** Output with the two header lines and no row: no domain, and no error. */
  lemma NoDomainsListed(h1: string, h2: string, trail: string)
    requires !AllSpace(h1) && '\n' !in h1 && '\n' !in h2
    requires h2 != [] && !IsSpace(Last(h2))
    requires AllSpace(trail)
    ensures ListRows(h1 + "\n" + h2 + trail) == []
    ensures VmList(h1 + "\n" + h2 + trail) == Ok([])
  {
    var text := h1 + "\n" + h2 + trail;
    var y := StripLeft(h1) + "\n" + h2;
    assert text == h1 + ("\n" + h2 + trail);
    StripLeftAppend(h1, "\n" + h2 + trail);
    assert StripLeft(text) == y + trail;
    StripRightTrail(y, trail);
    StripLeftNoNewline(h1);
    SplitPair(StripLeft(h1), h2, '\n');
  }

  /** `text.strip().split(sep)[-1]`: what follows the last separator of the stripped text. */
  function LastPieceOfStripped(text: string, sep: char): (piece: string)
    ensures sep !in piece
  {
    Last(Split(Strip(text), sep))
  }

  /** The last line of the stripped text, as `text.strip().split('\n')[-1]`. */
  function LastLine(text: string): (line: string)
    ensures '\n' !in line
  {
    LastPieceOfStripped(text, '\n')
  }

  /** The address in an interface row: none without `ipv4`, else the last field up to its `/`. */
  function IpOfRow(line: string): (ip: Option<string>)
    ensures ip.Some? ==> '/' !in ip.value && ' ' !in ip.value
  {
    if !Contains(line, "ipv4") then None
    else
      var ipFull := Last(Split(line, ' '));
      SplitPiecesWithin(ipFull, '/', ' ');
      Some(Split(ipFull, '/')[0])
  }

  /** vmc.py's `_get_ip_of_vm`, reading the given output of `virsh domifaddr`. */
  function GetIpOfVm(text: string): (ip: Option<string>)
    ensures ip.Some? ==> '/' !in ip.value && ' ' !in ip.value
    ensures ip.Some? <==> Contains(LastLine(text), "ipv4")
  {
    IpOfRow(LastLine(text))
  }

  /** vmc.py's `_get_cpu_count`: the last field of the output as an integer; None for the ValueError. */
  function GetCpuCount(text: string): (n: Option<int>)
    ensures AllSpace(text) ==> n.None?
  {
    StripLeftAllSpace(text);
    ParseInt(LastPieceOfStripped(text, ' '))
  }

  /** vmc.py's `_get_hdd`: the last space-separated field of the output. */
  function GetHdd(text: string): (path: string)
    ensures ' ' !in path
  {
    LastPieceOfStripped(text, ' ')
  }

  /** Leading whitespace of output whose first line is not blank lies in that line. */
  lemma StripLeftLines(head: string, row: string)
    requires !AllSpace(head)
    ensures !AllSpace(head + "\n" + row)
    ensures StripLeft(head + "\n" + row) == StripLeft(head) + "\n" + row
  {
    NotAllSpaceExtend(head, "\n" + row);
    StripLeftAppend(head, "\n" + row);
    Assoc(head, "\n", row);
    Assoc(StripLeft(head), "\n", row);
  }

  lemma Regroup(h: string, row: string, field: string)
    ensures h + "\n" + row + " " + field == h + "\n" + (row + " " + field)
  {
  }

  /** Stripping output whose first part is not blank and whose end is a field, then whitespace. */
  lemma StripOutput(head: string, row: string, field: string, trail: string)
    requires !AllSpace(head)
    requires field != [] && !IsSpace(field[0]) && !IsSpace(Last(field))
    requires AllSpace(trail)
    ensures Strip(head + "\n" + row + " " + field + trail) == StripLeft(head) + "\n" + (row + " " + field)
  {
    StripLeftLines(head, row);
    StripBeforeField(head + "\n" + row, field, trail);
    Regroup(StripLeft(head), row, field);
  }

  /** The last line of output that ends in a field, then whitespace, is that line. */
  lemma LastLineOf(head: string, row: string, field: string, trail: string)
    requires !AllSpace(head)
    requires '\n' !in row && '\n' !in field
    requires field != [] && !IsSpace(field[0]) && !IsSpace(Last(field))
    requires AllSpace(trail)
    ensures LastLine(head + "\n" + row + " " + field + trail) == row + " " + field
  {
    StripOutput(head, row, field, trail);
    var y := row + " " + field;
    var h := StripLeft(head);
    assert h + "\n" + y == h + ['\n'] + y;
    LastPiece(h, y, '\n');
  }

  /** An `ipv4` row ending in `address/prefix` yields the address. */
  lemma IpOfAddressRow(row: string, addr: string, mask: string)
    requires Contains(row, "ipv4")
    requires ' ' !in addr && '/' !in addr && ' ' !in mask
    ensures IpOfRow(row + " " + addr + "/" + mask) == Some(addr)
  {
    var field := addr + "/" + mask;
    Assoc(row + " ", addr, "/");
    Assoc(row + " ", addr + "/", mask);
    Assoc(row, " ", field);
    ContainsExtend(row, " " + field, "ipv4");
    LastPiece(row, field, ' ');
    AddressOfField(addr, mask);
  }

  /** `address/prefix` cut at its first `/` is the address. */
  lemma AddressOfField(addr: string, mask: string)
    requires '/' !in addr
    ensures Split(addr + "/" + mask, '/')[0] == addr
  {
    assert addr + "/" + mask == addr + ['/'] + mask;
    SplitConcat(addr, mask, '/');
    SplitWithoutSeparator(addr, '/');
  }

  /**
   * When the output ends in a row that mentions `ipv4` and ends in
   * `address/prefix`, that address is found.
   */
  lemma IpOfInterfaceRow(head: string, row: string, addr: string, mask: string, trail: string)
    requires !AllSpace(head)
    requires Contains(row, "ipv4")
    requires '\n' !in row && '\n' !in addr && '\n' !in mask
    requires addr != [] && !IsSpace(addr[0]) && ' ' !in addr && '/' !in addr
    requires mask != [] && !IsSpace(Last(mask)) && ' ' !in mask
    requires AllSpace(trail)
    ensures GetIpOfVm(head + "\n" + row + " " + addr + "/" + mask + trail) == Some(addr)
  {
    InterfaceRowIsLast(head, row, addr, mask, trail);
    IpOfAddressRow(row, addr, mask);
  }

  /** The row ending in `address/prefix` is the last line of the output. */
  lemma InterfaceRowIsLast(head: string, row: string, addr: string, mask: string, trail: string)
    requires !AllSpace(head)
    requires '\n' !in row && '\n' !in addr && '\n' !in mask
    requires addr != [] && !IsSpace(addr[0])
    requires mask != [] && !IsSpace(Last(mask))
    requires AllSpace(trail)
    ensures LastLine(head + "\n" + row + " " + addr + "/" + mask + trail) == row + " " + addr + "/" + mask
  {
    var field := addr + "/" + mask;
    assert row + " " + addr + "/" + mask == row + " " + field;
    assert head + "\n" + row + " " + addr + "/" + mask + trail == head + "\n" + row + " " + field + trail;
    assert field[0] == addr[0] && Last(field) == Last(mask);
    assert '\n' !in field;
    LastLineOf(head, row, field, trail);
  }

  /** The count at the end of the `vcpucount` line is read back. */
  lemma CpuCountOfLine(line: string, n: nat, trail: string)
    requires AllSpace(trail)
    ensures GetCpuCount(line + " " + ShowNat(n) + trail) == Some(n)
  {
    var d := ShowNat(n);
    DigitIsNotSpace(d[0]);
    DigitIsNotSpace(Last(d));
    assert ' ' !in d by {
      forall i | 0 <= i < |d| ensures d[i] != ' ' {
        DigitIsNotSpace(d[i]);
      }
    }
    LastFieldOfStripped(line, d, trail);
    ShowNatValue(n);
    ParseUnsigned(d);
  }

  /** The disk path at the end of the `domblklist` line is read back. */
  lemma HddOfLine(line: string, path: string, trail: string)
    requires path != [] && ' ' !in path && !IsSpace(path[0]) && !IsSpace(Last(path))
    requires AllSpace(trail)
    ensures GetHdd(line + " " + path + trail) == path
  {
    LastFieldOfStripped(line, path, trail);
  }

  /** Python's `f'{ip}'` for what `_get_ip_of_vm` returns: None prints as `None`. */
  function IpText(ip: Option<string>): string {
    if ip.Some? then ip.value else "None"
  }

  /**
   * vmc.py's `_change_name_to_ip`: `vm:file` becomes `root@<ip of vm>:file`;
   * `domifaddr` gives the output of `virsh domifaddr` for a domain name.
   */
  function ChangeNameToIp(filepath: string, domifaddr: string -> string): (r: Result<string, Exception>)
    ensures r.Ok? <==> Count(filepath, ':') <= 1
    ensures Count(filepath, ':') == 0 ==> r == Ok(filepath)
    ensures r.Err? ==> r.error == ValueError
  {
    if ':' !in filepath then
      CountAbsent(filepath, ':');
      Ok(filepath)
    else
      CountPresent(filepath, ':');
      var parts := Split(filepath, ':');
      if |parts| != 2 then Err(ValueError)
      else Ok("root@" + IpText(GetIpOfVm(domifaddr(parts[0]))) + ":" + parts[1])
  }

  /** A remote path `vm:file` names the domain before the colon and keeps the file after it. */
  lemma RemotePath(vm: string, file: string, domifaddr: string -> string)
    requires ':' !in vm && ':' !in file
    ensures ChangeNameToIp(vm + ":" + file, domifaddr)
         == Ok("root@" + IpText(GetIpOfVm(domifaddr(vm))) + ":" + file)
  {
    var path := vm + ":" + file;
    assert path == vm + [':'] + file;
    assert path[|vm|] == ':';
    SplitPair(vm, file, ':');
  }
}
