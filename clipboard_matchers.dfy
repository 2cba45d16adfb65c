/** The paste matchers for table markup: each turns the delta produced for a
    table element into one tagged with table-row, table-cell and table-column
    metadata. The DOM reads the matchers begin with are parameters here. */
module ClipboardMatchers {
  import opened Deltas

  /** The table attributes carried over to the `table-temporary` marker. */
  const TableAttribute: seq<string> := ["border", "cellspacing", "style"]

  /** The `format` argument of `applyFormat`: one attribute name, or an object
      whose entries are applied in key order. */
  datatype Format = Key(name: string) | Object(entries: seq<(string, string)>)

  // ---------------------------------------------------------------------------
  // applyFormat

  /** One step of the fold: an operation that already has a truthy `key` is
      pushed as it is, any other is inserted again with `key` added beneath
      its own attributes. */
  function FormatStep(acc: Delta, op: Op, key: string, value: Value): Delta
  {
    if HasTruthy(op.attributes, key) then acc + [op]
    else InsertOp(acc, op.insert, Extend(key, value, op.attributes))
  }

  /** The reference meaning of formatting one operation: `key` is added with
      `value` when the operation lacks it, and nothing else changes. */
  function FormatOp(op: Op, key: string, value: Value): Op
  {
    Op(op.insert, if key in op.attributes then op.attributes else op.attributes[key := value])
  }

  /** `applyFormat` with a single key: a left fold over the operations into a
      new delta. */
  function ApplyKey(d: Delta, key: string, value: Value): (r: Delta)
    ensures |r| <= |d|
    ensures forall i :: 0 <= i < |r| ==> key in r[i].attributes
    ensures Text(r) == Text(d)
    decreases |d|
  {
    if d == [] then []
    else
      var acc := ApplyKey(d[..|d| - 1], key, value);
      var op := d[|d| - 1];
      FormatStepKeepsText(acc, op, key, value);
      TextPush(d[..|d| - 1], op);
      assert d == d[..|d| - 1] + [op];
      FormatStep(acc, op, key, value)
  }

  /** A fold step adds at most one operation, which has the key, and extends
      the text by the operation's insert. */
  lemma FormatStepKeepsText(acc: Delta, op: Op, key: string, value: Value)
    ensures var r := FormatStep(acc, op, key, value);
      && |acc| <= |r| <= |acc| + 1 && r[..|acc|] == acc
      && (|r| > |acc| ==> key in r[|acc|].attributes)
      && Text(r) == Text(acc) + op.insert
  {
    if HasTruthy(op.attributes, key) {
      TextPush(acc, op);
    } else if op.insert != "" {
      TextPush(acc, Op(op.insert, Extend(key, value, op.attributes)));
    }
  }

  /** `applyFormat`: a string format is one key with the given value; an
      object format folds its entries over the delta, one key at a time, each
      with its own value. */
  function ApplyFormat(d: Delta, format: Format, value: Value): (r: Delta)
  {
    match format
    case Key(k) => ApplyKey(d, k, value)
    case Object(entries) => ApplyEntries(d, entries)
  }

  /** The entries of an object format applied one after another. */
  function ApplyEntries(d: Delta, entries: seq<(string, string)>): Delta
    decreases |entries|
  {
    if entries == [] then d
    else ApplyEntries(ApplyKey(d, entries[0].0, Str(entries[0].1)), entries[1..])
  }

  /** The keys a format names. */
  function FormatKeys(format: Format): set<string>
  {
    match format
    case Key(k) => {k}
    case Object(entries) => set e | e in entries :: e.0
  }

  /** Every operation of a delta carries all of the given keys. */
  predicate AllHave(d: Delta, keys: set<string>)
  {
    forall i :: 0 <= i < |d| ==> keys <= d[i].attributes.Keys
  }

  /** Formatting with one key never removes a key an operation had. */
  lemma {:induction false} ApplyKeyKeepsKeys(d: Delta, key: string, value: Value, keys: set<string>)
    requires AllHave(d, keys)
    ensures AllHave(ApplyKey(d, key, value), keys + {key})
    decreases |d|
  {
    if d != [] {
      var p := d[..|d| - 1];
      var op := d[|d| - 1];
      assert AllHave(p, keys) by {
        forall i | 0 <= i < |p| ensures keys <= p[i].attributes.Keys {
          assert p[i] == d[i];
        }
      }
      ApplyKeyKeepsKeys(p, key, value, keys);
      assert keys <= op.attributes.Keys;
    }
  }

  /** Folding the entries of an object format keeps the text and leaves every
      operation with every key the object names, besides the keys it had. */
  lemma {:induction false} ApplyEntriesAddsKeys(d: Delta, entries: seq<(string, string)>, keys: set<string>)
    requires AllHave(d, keys)
    ensures Text(ApplyEntries(d, entries)) == Text(d)
    ensures AllHave(ApplyEntries(d, entries), keys + set e | e in entries :: e.0)
    decreases |entries|
  {
    var named := set e | e in entries :: e.0;
    if entries == [] {
      assert keys + named == keys;
    } else {
      var k := entries[0].0;
      var rest := entries[1..];
      ApplyKeyKeepsKeys(d, k, Str(entries[0].1), keys);
      ApplyEntriesAddsKeys(ApplyKey(d, k, Str(entries[0].1)), rest, keys + {k});
      assert named == {k} + set e | e in rest :: e.0 by {
        assert forall e :: e in entries <==> e == entries[0] || e in rest;
      }
      assert keys + named == (keys + {k}) + set e | e in rest :: e.0;
    }
  }

  /** `applyFormat` with either kind of format keeps the text and leaves every
      operation carrying every key the format names. */
  lemma ApplyFormatAddsKeys(d: Delta, format: Format, value: Value)
    ensures Text(ApplyFormat(d, format, value)) == Text(d)
    ensures AllHave(ApplyFormat(d, format, value), FormatKeys(format))
  {
    match format
    case Key(k) =>
    case Object(entries) =>
      ApplyEntriesAddsKeys(d, entries, {});
      assert {} + FormatKeys(format) == FormatKeys(format);
  }

  /** The attributes an object format supplies: where a key is repeated, the
      first entry is the one that sticks. */
  function Defaults(entries: seq<(string, string)>): (m: Attributes)
    ensures m.Keys == set e | e in entries :: e.0
    decreases |entries|
  {
    if entries == [] then map[]
    else Defaults(entries[1..])[entries[0].0 := Str(entries[0].1)]
  }

  /** Both branches of the fold step agree with the reference: an existing
      value of `key` always wins over the new one. */
  lemma FormatStepIsFormatOp(acc: Delta, op: Op, key: string, value: Value)
    requires op.insert != "" || HasTruthy(op.attributes, key)
    ensures FormatStep(acc, op, key, value) == acc + [FormatOp(op, key, value)]
  {
    if !HasTruthy(op.attributes, key) {
      assert Extend(key, value, op.attributes) == FormatOp(op, key, value).attributes;
    }
  }

  /** On a delta without empty inserts, `applyFormat` keeps every operation,
      in order, with its text and with every attribute it had, and only adds
      `key` where it was missing. */
  lemma {:induction false} ApplyKeyPerOp(d: Delta, key: string, value: Value)
    requires NoEmptyInserts(d)
    ensures |ApplyKey(d, key, value)| == |d|
    ensures forall i :: 0 <= i < |d| ==> ApplyKey(d, key, value)[i] == FormatOp(d[i], key, value)
    decreases |d|
  {
    if d != [] {
      var p := d[..|d| - 1];
      var op := d[|d| - 1];
      var acc := ApplyKey(p, key, value);
      ApplyKeyPerOp(p, key, value);
      assert d == p + [op];
      ApplyKeyPush(p, op, key, value);
      FormatStepIsFormatOp(acc, op, key, value);
      FormatOpSnoc(acc, p, op, key, value);
    }
  }

  /** Extending an operation-wise formatted prefix by one formatted operation. */
  lemma FormatOpSnoc(acc: Delta, p: Delta, op: Op, key: string, value: Value)
    requires |acc| == |p| && forall i :: 0 <= i < |p| ==> acc[i] == FormatOp(p[i], key, value)
    ensures var r, d := acc + [FormatOp(op, key, value)], p + [op];
      |r| == |d| && forall i :: 0 <= i < |d| ==> r[i] == FormatOp(d[i], key, value)
  {
  }

  /** The fold takes one step per operation appended to the delta. */
  lemma ApplyKeyPush(d: Delta, op: Op, key: string, value: Value)
    ensures ApplyKey(d + [op], key, value) == FormatStep(ApplyKey(d, key, value), op, key, value)
  {
    assert (d + [op])[..|d|] == d;
  }

  /** A fold step appends to the accumulated delta what the step alone yields. */
  lemma FormatStepAppends(acc: Delta, op: Op, key: string, value: Value)
    ensures FormatStep(acc, op, key, value) == acc + FormatStep([], op, key, value)
  {
  }

  /** Formatting distributes over concatenation of deltas. */
  lemma {:induction false} ApplyKeyConcat(a: Delta, b: Delta, key: string, value: Value)
    ensures ApplyKey(a + b, key, value) == ApplyKey(a, key, value) + ApplyKey(b, key, value)
    decreases |b|
  {
    if b == [] {
      assert a + b == a;
    } else {
      var b' := b[..|b| - 1];
      var op := b[|b| - 1];
      assert b == b' + [op];
      assert a + b == (a + b') + [op];
      var x := ApplyKey(a, key, value);
      var y := ApplyKey(b', key, value);
      var t := FormatStep([], op, key, value);
      calc {
        ApplyKey(a + b, key, value);
        { ApplyKeyPush(a + b', op, key, value); }
        FormatStep(ApplyKey(a + b', key, value), op, key, value);
        { ApplyKeyConcat(a, b', key, value); }
        FormatStep(x + y, op, key, value);
        { FormatStepAppends(x + y, op, key, value); }
        (x + y) + t;
        x + (y + t);
        { FormatStepAppends(y, op, key, value); ApplyKeyPush(b', op, key, value); }
        x + ApplyKey(b, key, value);
      }
    }
  }

  /** Formatting one operation a second time changes nothing, whatever the
      second value is. */
  lemma FormatOnceMore(op: Op, key: string, value: Value, other: Value)
    requires key in op.attributes
    ensures ApplyKey([op], key, other) == (if op.insert != "" || HasTruthy(op.attributes, key) then [op] else [])
  {
    assert [op][..0] == [];
    if !HasTruthy(op.attributes, key) {
      assert Extend(key, other, op.attributes) == op.attributes;
    }
  }

  /** Applying the same key twice gives the result of applying it once: the
      second pass finds the key on every operation and leaves it alone. */
  lemma {:induction false} ApplyKeyIdempotent(d: Delta, key: string, value: Value, other: Value)
    ensures ApplyKey(ApplyKey(d, key, value), key, other) == ApplyKey(d, key, value)
    decreases |d|
  {
    if d != [] {
      var p := d[..|d| - 1];
      var op := d[|d| - 1];
      var acc := ApplyKey(p, key, value);
      ApplyKeyIdempotent(p, key, value, other);
      if HasTruthy(op.attributes, key) {
        ApplyKeyConcat(acc, [op], key, other);
        FormatOnceMore(op, key, value, other);
      } else if op.insert != "" {
        var o := Op(op.insert, Extend(key, value, op.attributes));
        ApplyKeyConcat(acc, [o], key, other);
        FormatOnceMore(o, key, value, other);
      }
    }
  }

  /** An object format applied to a delta without empty inserts merges the
      object's entries beneath each operation's own attributes. */
  lemma {:induction false} ApplyObjectPerOp(d: Delta, entries: seq<(string, string)>, value: Value)
    requires NoEmptyInserts(d)
    ensures |ApplyFormat(d, Object(entries), value)| == |d|
    ensures forall i :: 0 <= i < |d| ==>
      ApplyFormat(d, Object(entries), value)[i] == Op(d[i].insert, Defaults(entries) + d[i].attributes)
    decreases |entries|
  {
    if entries == [] {
      forall i | 0 <= i < |d| ensures d[i] == Op(d[i].insert, Defaults(entries) + d[i].attributes) {
        assert Defaults(entries) == map[];
        assert map[] + d[i].attributes == d[i].attributes;
      }
    } else {
      var k, v := entries[0].0, Str(entries[0].1);
      var rest := entries[1..];
      var d' := ApplyKey(d, k, v);
      ApplyKeyPerOp(d, k, v);
      assert NoEmptyInserts(d');
      ApplyObjectPerOp(d', rest, value);
      assert Defaults(entries) == Defaults(rest)[k := v];
      forall i | 0 <= i < |d|
        ensures Defaults(rest) + d'[i].attributes == Defaults(entries) + d[i].attributes
      {
        DefaultsBeneath(Defaults(rest), k, v, d[i].attributes);
      }
    }
  }

  /** Adding a key beneath an operation's attributes, then laying defaults
      beneath the result, is laying the defaults with that key beneath. */
  lemma DefaultsBeneath(defaults: Attributes, k: string, v: Value, a: Attributes)
    ensures defaults + (if k in a then a else a[k := v]) == defaults[k := v] + a
  {
  }

  /** An object format is its entries applied one after another: splitting
      the entries splits the fold. */
  lemma {:induction false} ApplyEntriesSplit(d: Delta, first: seq<(string, string)>, second: seq<(string, string)>)
    ensures ApplyEntries(d, first + second) == ApplyEntries(ApplyEntries(d, first), second)
    decreases |first|
  {
    if first == [] {
      assert first + second == second;
    } else {
      assert (first + second)[0] == first[0];
      assert (first + second)[1..] == first[1..] + second;
      ApplyEntriesSplit(ApplyKey(d, first[0].0, Str(first[0].1)), first[1..], second);
    }
  }

  /** A one-entry object format is the string format with that entry's value. */
  lemma SingleEntryIsKey(d: Delta, key: string, s: string, value: Value)
    ensures ApplyFormat(d, Object([(key, s)]), value) == ApplyFormat(d, Key(key), Str(s))
  {
    var d' := ApplyKey(d, key, Str(s));
    assert [(key, s)][1..] == [];
    assert ApplyEntries(d', []) == d';
  }

  // ---------------------------------------------------------------------------
  // matchTable

  /** The characters that the regular-expression class `\s` matches. */
  predicate IsWhitespace(c: char) {
    c == '\t' || c == '\n' || c == '\U{B}' || c == '\U{C}' || c == '\r' || c == ' '
    || c == '\U{A0}' || c == '\U{1680}' || ('\U{2000}' <= c <= '\U{200A}')
    || c == '\U{2028}' || c == '\U{2029}' || c == '\U{202F}' || c == '\U{205F}'
    || c == '\U{3000}' || c == '\U{FEFF}'
  }

  /** The string with every whitespace character removed and the others kept
      in order. */
  function StripWhitespace(s: string): (r: string)
    ensures |r| <= |s|
    ensures forall i :: 0 <= i < |r| ==> !IsWhitespace(r[i])
    ensures forall c :: c in r <==> c in s && !IsWhitespace(c)
    ensures (forall i :: 0 <= i < |s| ==> !IsWhitespace(s[i])) ==> r == s
  {
    if s == [] then []
    else
      assert s == [s[0]] + s[1..];
      assert forall i :: 1 <= i < |s| ==> s[1..][i - 1] == s[i];
      if IsWhitespace(s[0]) then StripWhitespace(s[1..])
      else [s[0]] + StripWhitespace(s[1..])
  }

  /** Removing whitespace works piece by piece, so the kept characters stay
      in their order. */
  lemma {:induction false} StripWhitespaceConcat(a: string, b: string)
    ensures StripWhitespace(a + b) == StripWhitespace(a) + StripWhitespace(b)
    decreases |a|
  {
    if a == [] {
      assert a + b == b;
    } else {
      assert (a + b)[0] == a[0];
      assert (a + b)[1..] == a[1..] + b;
      StripWhitespaceConcat(a[1..], b);
    }
  }

  /** A row whose inner HTML holds nothing once whitespace is removed. */
  predicate IsBlankHtml(html: string) {
    StripWhitespace(html) == ""
  }

  /** The inner HTML is blank exactly when every character is whitespace. */
  lemma {:induction false} BlankIffAllWhitespace(html: string)
    ensures IsBlankHtml(html) <==> forall i :: 0 <= i < |html| ==> IsWhitespace(html[i])
  {
    if html != [] {
      BlankIffAllWhitespace(html[1..]);
      assert forall i :: 1 <= i < |html| ==> html[i] == html[1..][i - 1];
    }
  }

  /** `matchTable`: a blank row pastes as nothing; any other row
      tags its content with its 1-based position, `rowIndex` being the row's
      index among the table's rows (-1 when it is not found). */
  function MatchTable(innerHtml: string, rowIndex: int, d: Delta): (r: Delta)
    ensures IsBlankHtml(innerHtml) ==> r == []
    ensures !IsBlankHtml(innerHtml) ==>
      Text(r) == Text(d) && forall i :: 0 <= i < |r| ==> "table-cell" in r[i].attributes
  {
    if IsBlankHtml(innerHtml) then []
    else ApplyFormat(d, Key("table-cell"), Num(rowIndex + 1))
  }

  /** On a non-blank row, every operation keeps its own `table-cell` and the
      others get the row position; nothing else changes. */
  lemma MatchTableTagsRow(innerHtml: string, rowIndex: int, d: Delta)
    requires !IsBlankHtml(innerHtml) && NoEmptyInserts(d)
    ensures |MatchTable(innerHtml, rowIndex, d)| == |d|
    ensures forall i :: 0 <= i < |d| ==>
      var a := d[i].attributes;
      MatchTable(innerHtml, rowIndex, d)[i] ==
        Op(d[i].insert, if "table-cell" in a then a else a["table-cell" := Num(rowIndex + 1)])
  {
    ApplyKeyPerOp(d, "table-cell", Num(rowIndex + 1));
  }

  // ---------------------------------------------------------------------------
  // matchTableCell

  /** The row a cell belongs to: its row's `data-row` attribute when that is
      present and non-empty, else the row's 1-based position. */
  function RowValue(dataRow: Option<string>, rowIndex: int): Value
  {
    JsOr(AttributeRead(dataRow), Num(rowIndex + 1))
  }

  /** A present, non-empty `data-row` names the row; a missing or empty one
      gives way to the 1-based position. */
  lemma RowValueChoice(dataRow: Option<string>, rowIndex: int)
    ensures dataRow.Some? && dataRow.value != "" ==> RowValue(dataRow, rowIndex) == Str(dataRow.value)
    ensures !(dataRow.Some? && dataRow.value != "") ==> RowValue(dataRow, rowIndex) == Num(rowIndex + 1)
  {
  }

  /** The placeholder a cell with no content pastes as. */
  function CellPlaceholder(row: Value): Attributes
  {
    map["table-cell" := Obj(map["data-row" := row])]
  }

  /** For an operation whose `table-cell` is truthy, `table-cell` becomes a
      fresh object holding the old fields with `data-row` set to the row. */
  function RewriteDataRow(op: Op, row: Value): Op
  {
    if HasTruthy(op.attributes, "table-cell") then
      var cell := Spread(op.attributes["table-cell"])["data-row" := row];
      Op(op.insert, op.attributes["table-cell" := Obj(cell)])
    else op
  }

  /** The rewrite keeps the text and every other attribute; a truthy
      `table-cell` becomes an object holding exactly its old fields (none for
      a value that is not an object) and `data-row`, set to the row; an
      operation without a truthy `table-cell` is left as it is. */
  lemma RewriteDataRowSpec(op: Op, row: Value)
    ensures var o := RewriteDataRow(op, row);
      var a := op.attributes;
      && o.insert == op.insert
      && o.attributes.Keys == a.Keys
      && (forall k :: k in a && k != "table-cell" ==> o.attributes[k] == a[k])
      && (!HasTruthy(a, "table-cell") ==> o == op)
      && (HasTruthy(a, "table-cell") ==>
            && o.attributes["table-cell"].Obj?
            && "data-row" in o.attributes["table-cell"].fields
            && o.attributes["table-cell"].fields["data-row"] == row
            && o.attributes["table-cell"].fields.Keys ==
                 (if a["table-cell"].Obj? then a["table-cell"].fields.Keys else {}) + {"data-row"}
            && (a["table-cell"].Obj? ==>
                  forall f :: f in a["table-cell"].fields && f != "data-row" ==>
                    f in o.attributes["table-cell"].fields
                    && o.attributes["table-cell"].fields[f] == a["table-cell"].fields[f]))
  {
    if HasTruthy(op.attributes, "table-cell") {
      SpreadThenSet(op.attributes["table-cell"], "data-row", row);
    }
  }

  /** The delta after the in-place steps of `matchTableCell`. */
  function CellPrepared(d: Delta, row: Value): (r: Delta)
  {
    var d' := if Length(d) == 0 then InsertOp(d, "\n", CellPlaceholder(row)) else d;
    seq(|d'|, i requires 0 <= i < |d'| => RewriteDataRow(d'[i], row))
  }

  /** After the in-place steps the delta keeps its operations' texts, gains
      the placeholder only when its length was zero, is never empty, and every
      truthy `table-cell` in it names the cell's row. */
  lemma CellPreparedRows(d: Delta, row: Value)
    ensures var p := CellPrepared(d, row);
      && |p| == (if Length(d) == 0 then |d| + 1 else |d|)
      && p != []
      && (forall i :: 0 <= i < |d| ==> p[i].insert == d[i].insert)
      && (Length(d) == 0 ==> HasTruthy(p[|d|].attributes, "table-cell"))
      && (forall i :: 0 <= i < |p| && HasTruthy(p[i].attributes, "table-cell") ==>
            p[i].attributes["table-cell"].Obj?
            && "data-row" in p[i].attributes["table-cell"].fields
            && p[i].attributes["table-cell"].fields["data-row"] == row)
  {
    var d' := if Length(d) == 0 then InsertOp(d, "\n", CellPlaceholder(row)) else d;
    var p := CellPrepared(d, row);
    if Length(d) != 0 {
      assert d != [];
    }
    forall i | 0 <= i < |p|
      ensures p[i].insert == d'[i].insert
      ensures HasTruthy(p[i].attributes, "table-cell") ==>
            p[i].attributes["table-cell"].Obj?
            && "data-row" in p[i].attributes["table-cell"].fields
            && p[i].attributes["table-cell"].fields["data-row"] == row
    {
      RewriteDataRowSpec(d'[i], row);
    }
    if Length(d) == 0 {
      RewriteDataRowSpec(Op("\n", CellPlaceholder(row)), row);
      assert p[|d|] == RewriteDataRow(Op("\n", CellPlaceholder(row)), row);
    }
  }

  /** `matchTableCell`. The row of the cell is given by its
      `data-row` attribute and its position `rowIndex` among the table's rows;
      `cellIndex` is the cell's position among its row's cells. An empty
      delta first gets a placeholder newline; every `table-cell` then has its
      `data-row` set, in place; the result is the delta tagged with the
      1-based cell position. */
  method MatchTableCell(dataRow: Option<string>, rowIndex: int, cellIndex: int, delta: MutableDelta)
    returns (r: Delta)
    modifies delta
    ensures delta.ops == CellPrepared(old(delta.ops), RowValue(dataRow, rowIndex))
    ensures r == ApplyFormat(delta.ops, Key("table-cell-block"), Num(cellIndex + 1))
    ensures r == CellResult(old(delta.ops), dataRow, rowIndex, cellIndex)
  {
    var row := RowValue(dataRow, rowIndex);
    var cell := cellIndex + 1;
    if Length(delta.ops) == 0 {
      delta.Insert("\n", CellPlaceholder(row));
    }
    ghost var filled := delta.ops;
    var i := 0;
    while i < |delta.ops|
      invariant |delta.ops| == |filled|
      invariant 0 <= i <= |filled|
      invariant forall j :: 0 <= j < i ==> delta.ops[j] == RewriteDataRow(filled[j], row)
      invariant forall j :: i <= j < |filled| ==> delta.ops[j] == filled[j]
    {
      var op := delta.ops[i];
      if HasTruthy(op.attributes, "table-cell") {
        var cellAttr := Spread(op.attributes["table-cell"])["data-row" := row];
        delta.ops := delta.ops[i := Op(op.insert, op.attributes["table-cell" := Obj(cellAttr)])];
      }
      i := i + 1;
    }
    r := ApplyFormat(delta.ops, Key("table-cell-block"), Num(cell));
  }

  /** The delta `matchTableCell` returns for a cell whose delta was `d`. */
  function CellResult(d: Delta, dataRow: Option<string>, rowIndex: int, cellIndex: int): Delta
  {
    ApplyFormat(CellPrepared(d, RowValue(dataRow, rowIndex)), Key("table-cell-block"), Num(cellIndex + 1))
  }

  /** The in-place steps keep the text, adding the placeholder newline only
      to a delta of length zero. */
  lemma CellPreparedText(d: Delta, row: Value)
    ensures Text(CellPrepared(d, row)) == if Length(d) == 0 then "\n" else Text(d)
  {
    var d' := if Length(d) == 0 then InsertOp(d, "\n", CellPlaceholder(row)) else d;
    var p := CellPrepared(d, row);
    assert forall i :: 0 <= i < |d'| ==> p[i] == RewriteDataRow(d'[i], row);
    TextsAgree(p, d');
    if Length(d) == 0 {
      ZeroLengthMeansEmptyText(d);
      TextPush(d, Op("\n", CellPlaceholder(row)));
    }
  }

  /** A pasted cell keeps its text, or becomes a single newline when it had
      none, and every operation of it is tagged with a cell. */
  lemma MatchTableCellText(d: Delta, dataRow: Option<string>, rowIndex: int, cellIndex: int)
    ensures Text(CellResult(d, dataRow, rowIndex, cellIndex)) == if Length(d) == 0 then "\n" else Text(d)
    ensures var r := CellResult(d, dataRow, rowIndex, cellIndex);
      forall i :: 0 <= i < |r| ==> "table-cell-block" in r[i].attributes
  {
    CellPreparedText(d, RowValue(dataRow, rowIndex));
  }

  /** An empty cell pastes as exactly one newline tagged with its row and cell. */
  lemma MatchTableCellEmpty(dataRow: Option<string>, rowIndex: int, cellIndex: int)
    ensures var row := RowValue(dataRow, rowIndex);
      CellResult([], dataRow, rowIndex, cellIndex)
        == [Op("\n", map["table-cell" := Obj(map["data-row" := row]), "table-cell-block" := Num(cellIndex + 1)])]
  {
    var row := RowValue(dataRow, rowIndex);
    var placeholder := Op("\n", CellPlaceholder(row));
    CellPreparedEmpty(row);
    ApplyKeyPerOp([placeholder], "table-cell-block", Num(cellIndex + 1));
    PlaceholderTagged(row, cellIndex + 1);
  }

  /** The in-place steps turn an empty delta into the placeholder alone: its
      `data-row` is already the row. */
  lemma CellPreparedEmpty(row: Value)
    ensures CellPrepared([], row) == [Op("\n", CellPlaceholder(row))]
  {
    var placeholder := Op("\n", CellPlaceholder(row));
    var m := map["data-row" := row];
    assert InsertOp([], "\n", CellPlaceholder(row)) == [placeholder];
    assert m["data-row" := row] == m;
    assert CellPlaceholder(row)["table-cell" := Obj(m)] == CellPlaceholder(row);
    assert RewriteDataRow(placeholder, row) == placeholder;
  }

  lemma PlaceholderTagged(row: Value, cell: int)
    ensures FormatOp(Op("\n", CellPlaceholder(row)), "table-cell-block", Num(cell))
      == Op("\n", map["table-cell" := Obj(map["data-row" := row]), "table-cell-block" := Num(cell)])
  {
  }

  /** What `matchTableCell` does to one operation with attributes `a`: a
      truthy `table-cell` is rewritten, every other attribute (a falsy
      `table-cell` included) is kept, and only `table-cell-block` is added. */
  ghost predicate CellOpTagged(a: Attributes, b: Attributes, row: Value, cell: int)
  {
    && (HasTruthy(a, "table-cell") ==>
          "table-cell" in b && b["table-cell"] == Obj(Spread(a["table-cell"])["data-row" := row]))
    && ("table-cell-block" in a ==> "table-cell-block" in b && b["table-cell-block"] == a["table-cell-block"])
    && ("table-cell-block" !in a ==> "table-cell-block" in b && b["table-cell-block"] == Num(cell))
    && (forall k :: k in a && (k != "table-cell" || !HasTruthy(a, "table-cell")) ==> k in b && b[k] == a[k])
    && (forall k :: k in b ==> k in a || k == "table-cell-block")
  }

  lemma RewriteThenFormat(op: Op, row: Value, cell: int)
    ensures var o := FormatOp(RewriteDataRow(op, row), "table-cell-block", Num(cell));
      o.insert == op.insert && CellOpTagged(op.attributes, o.attributes, row, cell)
  {
  }

  /** In a cell with content, every operation keeps its text; a truthy
      `table-cell` gets the cell's row over its other fields; the operation's
      own `table-cell-block` wins over the cell position; every other
      attribute is untouched, and no attribute but `table-cell-block` is added. */
  lemma MatchTableCellPerOp(d: Delta, dataRow: Option<string>, rowIndex: int, cellIndex: int)
    requires NoEmptyInserts(d) && d != []
    ensures |CellResult(d, dataRow, rowIndex, cellIndex)| == |d|
    ensures forall i :: 0 <= i < |d| ==>
      && CellResult(d, dataRow, rowIndex, cellIndex)[i].insert == d[i].insert
      && CellOpTagged(d[i].attributes, CellResult(d, dataRow, rowIndex, cellIndex)[i].attributes,
                      RowValue(dataRow, rowIndex), cellIndex + 1)
  {
    var row := RowValue(dataRow, rowIndex);
    var p := CellPrepared(d, row);
    assert Length(d) != 0 by {
      if Length(d) == 0 {
        ZeroLengthMeansEmptyText(d);
      }
    }
    assert |p| == |d|;
    assert forall i :: 0 <= i < |d| ==> p[i] == RewriteDataRow(d[i], row);
    assert NoEmptyInserts(p);
    ApplyKeyPerOp(p, "table-cell-block", Num(cellIndex + 1));
    var r := CellResult(d, dataRow, rowIndex, cellIndex);
    forall i | 0 <= i < |d|
      ensures r[i].insert == d[i].insert && CellOpTagged(d[i].attributes, r[i].attributes, row, cellIndex + 1)
    {
      RewriteThenFormat(d[i], row, cellIndex + 1);
    }
  }

  /** Two deltas whose operations have the same inserts have the same text. */
  lemma {:induction false} TextsAgree(a: Delta, b: Delta)
    requires |a| == |b| && forall i :: 0 <= i < |a| ==> a[i].insert == b[i].insert
    ensures Text(a) == Text(b)
    decreases |a|
  {
    if a != [] {
      TextsAgree(a[..|a| - 1], b[..|b| - 1]);
    }
  }

  // ---------------------------------------------------------------------------
  // matchTableCol

  /** The span, or one when the span reads as zero (missing or not a number). */
  function NormalizedSpan(span: int): int
  {
    var v := JsOr(Num(span), Num(1));
    assert v.Num?;
    v.n
  }

  /** How many column markers a `col` element with this span adds. */
  function MarkerCount(span: int): nat
  {
    var s := NormalizedSpan(span);
    if s > 1 then s - 1 else 0
  }

  /** A zero span counts as one; a span of two or more adds one marker per
      column beyond the first, any other span adds none. */
  lemma SpanMarkerCount(span: int)
    ensures NormalizedSpan(span) == if span == 0 then 1 else span
    ensures MarkerCount(span) == if span >= 2 then span - 1 else 0
  {
  }

  /** The newline that marks one further column of the given width. */
  function ColMarker(width: Option<string>): Op
  {
    Op("\n", map["table-col" := Obj(map["width" := if width.Some? then Str(width.value) else Null])])
  }

  /** `matchTableCol`: one column marker for each column the
      span covers beyond the first, in front of the delta unchanged. */
  method MatchTableCol(span: int, width: Option<string>, d: Delta) returns (r: Delta)
    ensures && |r| == |d| + MarkerCount(span)
            && (forall i :: 0 <= i < MarkerCount(span) ==> r[i] == ColMarker(width))
            && r[MarkerCount(span)..] == d
  {
    var s := NormalizedSpan(span);
    var newDelta: Delta := [];
    while s > 1
      invariant s > 1 ==> |newDelta| + s - 1 == MarkerCount(span)
      invariant s <= 1 ==> |newDelta| == MarkerCount(span)
      invariant forall i :: 0 <= i < |newDelta| ==> newDelta[i] == ColMarker(width)
    {
      newDelta := newDelta + [ColMarker(width)];
      s := s - 1;
    }
    r := newDelta + d;
  }

  /** Column markers in front of a delta add one to its length each. */
  lemma {:induction false} MarkersLength(markers: Delta, width: Option<string>, d: Delta)
    requires forall i :: 0 <= i < |markers| ==> markers[i] == ColMarker(width)
    ensures Length(markers + d) == Length(d) + |markers|
    decreases |markers|
  {
    if markers != [] {
      var rest := markers[..|markers| - 1];
      MarkersLength(rest, width, []);
      assert markers == rest + [ColMarker(width)];
      assert rest + [] == rest;
      TextPush(rest, ColMarker(width));
      TextConcat(markers, d);
    } else {
      assert markers + d == d;
    }
  }

  // ---------------------------------------------------------------------------
  // matchTableTemporary

  /** The fold over the whitelisted attribute names: each name the node has is copied,
      with its value, into the accumulated formats. */
  function PickAttributes(names: seq<string>, node: map<string, string>, acc: map<string, Value>): map<string, Value>
    decreases |names|
  {
    if names == [] then acc
    else
      var a := names[0];
      PickAttributes(names[1..], node, if a in node then acc[a := Str(node[a])] else acc)
  }

  lemma {:induction false} PickAttributesSpec(names: seq<string>, node: map<string, string>, acc: map<string, Value>)
    ensures var f := PickAttributes(names, node, acc);
      && f.Keys == acc.Keys + (set a | a in names && a in node)
      && (forall a :: a in names && a in node ==> f[a] == Str(node[a]))
      && (forall a :: a in acc && a !in (set a | a in names && a in node) ==> f[a] == acc[a])
    decreases |names|
  {
    if names != [] {
      var a := names[0];
      var acc' := if a in node then acc[a := Str(node[a])] else acc;
      PickAttributesSpec(names[1..], node, acc');
      assert forall x :: x in names <==> x == a || x in names[1..];
    }
  }

  /** `matchTableTemporary`: one newline carrying the node's
      whitelisted table attributes, in front of the delta unchanged. `node`
      maps each attribute the element has to its value. */
  function MatchTableTemporary(node: map<string, string>, d: Delta): (r: Delta)
    ensures |r| == |d| + 1 && r[1..] == d
    ensures r[0].insert == "\n" && r[0].attributes.Keys == {"table-temporary"}
    ensures r[0].attributes["table-temporary"].Obj?
    ensures var f := r[0].attributes["table-temporary"].fields;
      && f.Keys == set a | a in TableAttribute && a in node
      && forall a :: a in f ==> a in node && f[a] == Str(node[a])
    ensures Text(r) == "\n" + Text(d)
  {
    PickAttributesSpec(TableAttribute, node, map[]);
    var formats := PickAttributes(TableAttribute, node, map[]);
    var marker := Op("\n", map["table-temporary" := Obj(formats)]);
    TextConcat([marker], d);
    assert Text([marker]) == "\n" by { assert [marker][..0] == []; }
    [marker] + d
  }
}
