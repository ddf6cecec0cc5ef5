/** `SheetProcessor.__init__` and `SheetProcessor._process_row`: one spreadsheet
    row becomes a record with one field per mapped key. */
module SheetRow {
  import opened Wrappers
  import opened Strings
  import opened Seqs
  import opened Columns
  import opened ArraySplit
  import opened Singers

  /** The performer-credit key, parsed by `_parse_singers`. */
  const SingerKey: string := "歌唱"
  /** The brand key, split at colons when the cell mentions a cross-border brand. */
  const BrandKey: string := "ブランド"
  /** The marker of a cross-border brand, dropped from the brand list. */
  const CrossBorder: string := "越境"

  /** One entry of `column_mapping`: the column label, the record key it fills and
      whether that key holds a list (`is_array`, false when absent). */
  datatype ColumnRule = ColumnRule(column: string, key: string, isArray: bool)

  /** The configuration the processor reads: `data_start_row`, the two labels of
      `end_check_columns`, `column_mapping` in its dictionary order and
      `ignore_values`. */
  datatype Config = Config(
    dataStartRow: int,
    endCheckStart: string,
    endCheckEnd: string,
    mapping: seq<ColumnRule>,
    ignoreValues: set<string>)

  predicate IsColumn(s: string) {
    s != [] && ValidLabel(s)
  }

  predicate ValidColumns(rules: seq<ColumnRule>) {
    forall i :: 0 <= i < |rules| ==> IsColumn(rules[i].column)
  }

  /** Every key is used either only by list columns or only by text columns. */
  predicate ConsistentKeys(rules: seq<ColumnRule>) {
    forall i, j :: 0 <= i < |rules| && 0 <= j < |rules| && rules[i].key == rules[j].key ==>
      rules[i].isArray == rules[j].isArray
  }

  predicate ValidConfig(c: Config) {
    && IsColumn(c.endCheckStart)
    && IsColumn(c.endCheckEnd)
    && ValidColumns(c.mapping)
    && ConsistentKeys(c.mapping)
  }

  /** Some rule fills `key`. */
  predicate HasRule(rules: seq<ColumnRule>, key: string) {
    exists i :: 0 <= i < |rules| && rules[i].key == key
  }

  /** Some list column fills `key`. */
  predicate HasArrayRule(rules: seq<ColumnRule>, key: string) {
    exists i :: 0 <= i < |rules| && rules[i].isArray && rules[i].key == key
  }

  /** `v["key"] for v in col_map.values()`. */
  function Keys(rules: seq<ColumnRule>): (r: seq<string>)
    ensures |r| == |rules|
    ensures forall i :: 0 <= i < |rules| ==> r[i] == rules[i].key
  {
    seq(|rules|, i requires 0 <= i < |rules| => rules[i].key)
  }

  /** The keys of the list columns, in mapping order. */
  function ArrayRuleKeys(rules: seq<ColumnRule>): (r: seq<string>)
    ensures forall k :: k in r <==> HasArrayRule(rules, k)
  {
    if rules == [] then []
    else
      var rest := ArrayRuleKeys(rules[1..]);
      assert forall k :: HasArrayRule(rules, k) <==>
        (rules[0].isArray && rules[0].key == k) || HasArrayRule(rules[1..], k) by {
        forall k ensures HasArrayRule(rules, k) ==>
          (rules[0].isArray && rules[0].key == k) || HasArrayRule(rules[1..], k) {
          if HasArrayRule(rules, k) {
            var i :| 0 <= i < |rules| && rules[i].isArray && rules[i].key == k;
            if i > 0 { assert rules[1..][i - 1] == rules[i]; }
          }
        }
        forall k ensures HasArrayRule(rules[1..], k) ==> HasArrayRule(rules, k) {
          if HasArrayRule(rules[1..], k) {
            var i :| 0 <= i < |rules[1..]| && rules[1..][i].isArray && rules[1..][i].key == k;
            assert rules[i + 1] == rules[1..][i];
          }
        }
      }
      if rules[0].isArray then [rules[0].key] + rest else rest
  }

  /** The processor's derived state: the distinct list keys and the distinct keys,
      each in order of first appearance in the mapping. */
  datatype SheetProcessor = SheetProcessor(config: Config, arrayKeys: seq<string>, orderedKeys: seq<string>)
  {
    predicate Valid() {
      && ValidConfig(config)
      && arrayKeys == Distinct(ArrayRuleKeys(config.mapping))
      && orderedKeys == Distinct(Keys(config.mapping))
    }
  }

  /** `SheetProcessor.__init__`: both key lists through `dict.fromkeys`. */
  function NewSheetProcessor(config: Config): (p: SheetProcessor)
    requires ValidConfig(config)
    ensures p.Valid() && p.config == config
    ensures NoDup(p.arrayKeys) && NoDup(p.orderedKeys)
    ensures forall k :: k in p.orderedKeys <==> HasRule(config.mapping, k)
    ensures forall k :: k in p.arrayKeys <==> HasArrayRule(config.mapping, k)
  {
    var keys := Keys(config.mapping);
    assert forall k :: k in keys <==> HasRule(config.mapping, k) by {
      forall k | k in keys ensures HasRule(config.mapping, k) {
        var i :| 0 <= i < |keys| && keys[i] == k;
        assert config.mapping[i].key == k;
      }
      forall k | HasRule(config.mapping, k) ensures k in keys {
        var i :| 0 <= i < |config.mapping| && config.mapping[i].key == k;
        assert keys[i] == k;
      }
    }
    SheetProcessor(config, Distinct(ArrayRuleKeys(config.mapping)), Distinct(keys))
  }

  /** The keys come in the order of the first rule that names each of them. */
  lemma ProcessorKeyOrder(config: Config)
    requires ValidConfig(config)
    ensures var p := NewSheetProcessor(config);
      forall i, j :: 0 <= i < j < |p.orderedKeys| ==>
        FirstIndex(Keys(config.mapping), p.orderedKeys[i]) < FirstIndex(Keys(config.mapping), p.orderedKeys[j])
  {
    DistinctOrder(Keys(config.mapping));
  }

  /** Where a rule's key sits among the processor's keys. */
  lemma RuleKey(p: SheetProcessor, i: nat)
    requires p.Valid() && i < |p.config.mapping|
    ensures p.config.mapping[i].key in p.orderedKeys
    ensures p.config.mapping[i].key in p.arrayKeys <==> p.config.mapping[i].isArray
  {
    var rules := p.config.mapping;
    assert Keys(rules)[i] == rules[i].key;
    if rules[i].isArray {
      assert HasArrayRule(rules, rules[i].key);
    }
    if rules[i].key in p.arrayKeys {
      assert HasArrayRule(rules, rules[i].key);
      var j :| 0 <= j < |rules| && rules[j].isArray && rules[j].key == rules[i].key;
    }
  }

  lemma ArrayKeyIsKey(p: SheetProcessor, k: string)
    requires p.Valid() && k in p.arrayKeys
    ensures k in p.orderedKeys
  {
    assert HasArrayRule(p.config.mapping, k);
    var i :| 0 <= i < |p.config.mapping| && p.config.mapping[i].isArray && p.config.mapping[i].key == k;
    RuleKey(p, i);
  }

  /** A field of the record: a list for list keys, text otherwise. */
  datatype Value = Scalar(text: string) | Items(items: seq<string>)

  /** The record: its keys in insertion order and their fields. */
  datatype Record = Record(keys: seq<string>, fields: map<string, Value>)

  /** The stripped text of the cell of `row` in `column`; empty past the end of the row. */
  function CellValue(row: seq<string>, column: string): (v: string)
    requires IsColumn(column)
    ensures IsStripped(v)
    ensures v == [] <==> ColumnIndex(column) >= |row| || AllSpace(row[ColumnIndex(column)])
  {
    var idx := ColumnIndex(column);
    if idx < |row| && row[idx] != [] then Strip(row[idx]) else ""
  }

  /** A cell value the record takes: non-empty and not one of `ignore_values`. */
  predicate Usable(ignore: set<string>, v: string) {
    v != "" && v !in ignore
  }

  /** The list without the elements equal to `x`. */
  function Without(ps: seq<string>, x: string): (r: seq<string>) {
    if ps == [] then []
    else
      var rest := Without(ps[1..], x);
      if ps[0] == x then rest else [ps[0]] + rest
  }

  /** `Without` keeps exactly the elements other than `x`. */
  lemma {:induction false} WithoutMeaning(ps: seq<string>, x: string)
    ensures forall y :: y in Without(ps, x) <==> y in ps && y != x
  {
    if ps != [] {
      WithoutMeaning(ps[1..], x);
      assert forall y :: y in ps <==> y == ps[0] || y in ps[1..];
    }
  }

  /** Filtering distributes over concatenation, so order and repeats are kept. */
  lemma {:induction false} WithoutAppend(a: seq<string>, b: seq<string>, x: string)
    ensures Without(a + b, x) == Without(a, x) + Without(b, x)
  {
    if a != [] {
      assert (a + b)[1..] == a[1..] + b;
      assert (a + b)[0] == a[0];
      WithoutAppend(a[1..], b, x);
    } else {
      assert a + b == b;
    }
  }

  /** A single element is dropped exactly when it equals `x`. */
  lemma WithoutOne(y: string, x: string)
    ensures Without([y], x) == if y == x then [] else [y]
  {
    assert [y][1..] == [];
  }

  /** The brand comprehension: the stripped, non-empty colon-separated parts that are not
      the cross-border marker itself. */
  function BrandParts(value: string): (r: seq<string>)
  {
    Without(Clean(SplitOn(value, ':')), CrossBorder)
  }

  /** What the brand split keeps: exactly the cleaned colon parts other than the marker. */
  lemma BrandPartsMeaning(value: string)
    ensures forall y :: y in BrandParts(value) <==> y in Clean(SplitOn(value, ':')) && y != CrossBorder
    ensures forall y :: y in BrandParts(value) ==> y != [] && IsStripped(y)
  {
    WithoutMeaning(Clean(SplitOn(value, ':')), CrossBorder);
  }

  /** The brand list keeps order and repeats, which the deduplication then removes. */
  lemma BrandPartsRepeat()
    ensures BrandParts("越境:B:A:B") == ["B", "A", "B"]
  {
    BrandColonPieces();
    BrandCleanPieces();
    var ps := ["越境", "B", "A", "B"];
    assert Without(ps[3..], CrossBorder) == ["B"];
    assert Without(ps[2..], CrossBorder) == ["A", "B"];
    assert Without(ps[1..], CrossBorder) == ["B", "A", "B"];
  }

  lemma BrandColonPieces()
    ensures SplitOn("越境:B:A:B", ':') == ["越境", "B", "A", "B"]
  {
    var ps := ["越境", "B", "A", "B"];
    assert JoinWith(ps[3..], ':') == "B";
    assert JoinWith(ps[2..], ':') == "A:B";
    assert JoinWith(ps[1..], ':') == "B:A:B";
    assert JoinWith(ps, ':') == "越境:B:A:B";
    SplitOnJoin(ps, ':');
  }

  lemma BrandCleanPieces()
    ensures Clean(["越境", "B", "A", "B"]) == ["越境", "B", "A", "B"]
  {
    var ps := ["越境", "B", "A", "B"];
    StripOfStripped("越境");
    StripOfStripped("B");
    StripOfStripped("A");
    assert Clean(ps[3..]) == ["B"];
    assert Clean(ps[2..]) == ["A", "B"];
    assert Clean(ps[1..]) == ["B", "A", "B"];
  }

  /** The list a usable value of a list column contributes under `key`. */
  function Tokens(key: string, value: string): (r: seq<string>)
  {
    if key == SingerKey then SingerNames(RawPieces(value))
    else if key == BrandKey && Contains(value, CrossBorder) then BrandParts(value)
    else SafeSplit(value)
  }

  /** Every contributed item is non-empty and stripped, whatever the key. */
  lemma TokensAreNames(key: string, value: string)
    ensures AllNames(Tokens(key, value))
  {
    if key == SingerKey {
      SingerNamesAreNames(RawPieces(value));
    } else if key == BrandKey && Contains(value, CrossBorder) {
      BrandPartsMeaning(value);
      var r := BrandParts(value);
      forall j | 0 <= j < |r| ensures r[j] != [] && IsStripped(r[j]) {
        assert r[j] in r;
      }
    }
  }

  /** What `rule` adds to the list field `key` of `row`: the tokens of its cell when it
      is a usable cell of a list column for `key`, nothing otherwise. */
  function Piece(ignore: set<string>, rule: ColumnRule, row: seq<string>, key: string): (r: seq<string>)
    requires IsColumn(rule.column)
  {
    var v := CellValue(row, rule.column);
    if rule.isArray && rule.key == key && Usable(ignore, v) then Tokens(key, v) else []
  }

  /** What `rule` writes into the text field `key` of `row`: its cell when it is a usable
      cell of a text column for `key`. */
  function Write(ignore: set<string>, rule: ColumnRule, row: seq<string>, key: string): (r: Option<string>)
    requires IsColumn(rule.column)
  {
    var v := CellValue(row, rule.column);
    if !rule.isArray && rule.key == key && Usable(ignore, v) then Some(v) else None
  }

  /** The pieces of every rule, in mapping order. */
  function Pieces(ignore: set<string>, rules: seq<ColumnRule>, row: seq<string>, key: string): (ps: seq<seq<string>>)
    requires ValidColumns(rules)
    ensures |ps| == |rules|
  {
    seq(|rules|, i requires 0 <= i < |rules| => Piece(ignore, rules[i], row, key))
  }

  /** The writes of every rule, in mapping order. */
  function Writes(ignore: set<string>, rules: seq<ColumnRule>, row: seq<string>, key: string): (ws: seq<Option<string>>)
    requires ValidColumns(rules)
    ensures |ws| == |rules|
  {
    seq(|rules|, i requires 0 <= i < |rules| => Write(ignore, rules[i], row, key))
  }

  /** What the list field `key` holds once the first `n` rules have been applied to
      `row`: the pieces of those rules, in mapping order. */
  function Accumulated(ignore: set<string>, rules: seq<ColumnRule>, n: nat, row: seq<string>, key: string): (r: seq<string>)
    requires ValidColumns(rules) && n <= |rules|
  {
    Flatten(Pieces(ignore, rules, row, key), n)
  }

  /** The value of the last usable text cell for `key` among the first `n` rules, if any. */
  function LastScalar(ignore: set<string>, rules: seq<ColumnRule>, n: nat, row: seq<string>, key: string): (r: Option<string>)
    requires ValidColumns(rules) && n <= |rules|
  {
    LastSome(Writes(ignore, rules, row, key), n)
  }

  /** The field `key` once the first `n` rules have been applied, before deduplication. */
  function FieldAfter(p: SheetProcessor, n: nat, row: seq<string>, key: string): (r: Value)
    requires ValidColumns(p.config.mapping) && n <= |p.config.mapping|
  {
    if key in p.arrayKeys then Items(Accumulated(p.config.ignoreValues, p.config.mapping, n, row, key))
    else Scalar(LastScalar(p.config.ignoreValues, p.config.mapping, n, row, key).GetOr(""))
  }

  function FieldsAfter(p: SheetProcessor, n: nat, row: seq<string>): (r: map<string, Value>)
    requires ValidColumns(p.config.mapping) && n <= |p.config.mapping|
  {
    map k | k in p.orderedKeys :: FieldAfter(p, n, row, k)
  }

  /** The final deduplication of a non-empty list field, first occurrences kept. */
  function Dedup(v: Value): (r: Value) {
    if v.Items? && v.items != [] then Items(Distinct(v.items)) else v
  }

  /** The record `_process_row` returns, field by field. */
  function RowRecord(p: SheetProcessor, row: seq<string>): (r: Record)
    requires p.Valid()
  {
    Record(p.orderedKeys, map k | k in p.orderedKeys :: Dedup(FieldAfter(p, |p.config.mapping|, row, k)))
  }

  /** Rule `i` changes at most the field of its own key. */
  lemma FieldStep(p: SheetProcessor, row: seq<string>, i: nat, k: string)
    requires p.Valid() && i < |p.config.mapping|
    ensures var rule := p.config.mapping[i];
      var v := CellValue(row, rule.column);
      var before := FieldAfter(p, i, row, k);
      FieldAfter(p, i + 1, row, k) ==
        if rule.key != k || !Usable(p.config.ignoreValues, v) then before
        else if rule.isArray then Items(before.items + Tokens(k, v))
        else Scalar(v)
  {
    RuleKey(p, i);
    var rules := p.config.mapping;
    var ignore := p.config.ignoreValues;
    assert Pieces(ignore, rules, row, k)[i] == Piece(ignore, rules[i], row, k);
    assert Writes(ignore, rules, row, k)[i] == Write(ignore, rules[i], row, k);
  }

  lemma FieldOther(p: SheetProcessor, row: seq<string>, i: nat, k: string)
    requires p.Valid() && i < |p.config.mapping| && p.config.mapping[i].key != k
    ensures FieldAfter(p, i + 1, row, k) == FieldAfter(p, i, row, k)
  {
    var rules := p.config.mapping;
    var ignore := p.config.ignoreValues;
    assert Pieces(ignore, rules, row, k)[i] == [];
    assert Writes(ignore, rules, row, k)[i] == None;
  }

  /** Rule `i` changes at most the entry of its own key. */
  lemma FieldsUpdate(p: SheetProcessor, row: seq<string>, i: nat)
    requires p.Valid() && i < |p.config.mapping|
    ensures var key := p.config.mapping[i].key;
      key in FieldsAfter(p, i, row)
      && FieldsAfter(p, i + 1, row) == FieldsAfter(p, i, row)[key := FieldAfter(p, i + 1, row, key)]
  {
    var key := p.config.mapping[i].key;
    RuleKey(p, i);
    var after := FieldsAfter(p, i + 1, row);
    var expected := FieldsAfter(p, i, row)[key := FieldAfter(p, i + 1, row, key)];
    forall k | k in p.orderedKeys && k != key ensures after[k] == expected[k] {
      FieldOther(p, row, i, k);
    }
    assert after.Keys == expected.Keys;
  }

  /** A skipped cell leaves every field as it was. */
  lemma FieldsSkip(p: SheetProcessor, row: seq<string>, i: nat)
    requires p.Valid() && i < |p.config.mapping|
    requires !Usable(p.config.ignoreValues, CellValue(row, p.config.mapping[i].column))
    ensures FieldsAfter(p, i + 1, row) == FieldsAfter(p, i, row)
  {
    var key := p.config.mapping[i].key;
    FieldsUpdate(p, row, i);
    FieldStep(p, row, i, key);
    var before := FieldsAfter(p, i, row);
    assert before[key := before[key]] == before;
  }

  /** A usable cell of a list column appends its tokens to its key's list. */
  lemma FieldsArray(p: SheetProcessor, row: seq<string>, i: nat)
    requires p.Valid() && i < |p.config.mapping|
    requires Usable(p.config.ignoreValues, CellValue(row, p.config.mapping[i].column))
    requires p.config.mapping[i].isArray
    ensures var rule := p.config.mapping[i];
      var before := FieldsAfter(p, i, row);
      rule.key in before && before[rule.key].Items?
      && FieldsAfter(p, i + 1, row)
         == before[rule.key := Items(before[rule.key].items + Tokens(rule.key, CellValue(row, rule.column)))]
  {
    var key := p.config.mapping[i].key;
    RuleKey(p, i);
    FieldsUpdate(p, row, i);
    FieldStep(p, row, i, key);
  }

  /** A usable cell of a text column replaces its key's text. */
  lemma FieldsScalar(p: SheetProcessor, row: seq<string>, i: nat)
    requires p.Valid() && i < |p.config.mapping|
    requires Usable(p.config.ignoreValues, CellValue(row, p.config.mapping[i].column))
    requires !p.config.mapping[i].isArray
    ensures var rule := p.config.mapping[i];
      var before := FieldsAfter(p, i, row);
      rule.key in before
      && FieldsAfter(p, i + 1, row) == before[rule.key := Scalar(CellValue(row, rule.column))]
  {
    var key := p.config.mapping[i].key;
    FieldsUpdate(p, row, i);
    FieldStep(p, row, i, key);
  }

  /** `fields` once the first `j` of the list keys have been deduplicated. */
  function PartlyDeduped(arrayKeys: seq<string>, fields: map<string, Value>, j: nat): (r: map<string, Value>)
    requires j <= |arrayKeys|
  {
    map k | k in fields :: if k in arrayKeys[..j] then Dedup(fields[k]) else fields[k]
  }

  /** Every list key holds a list. */
  predicate HoldsLists(arrayKeys: seq<string>, fields: map<string, Value>) {
    forall k :: k in arrayKeys ==> k in fields && fields[k].Items?
  }

  lemma DedupStep(arrayKeys: seq<string>, fields: map<string, Value>, j: nat)
    requires j < |arrayKeys| && NoDup(arrayKeys) && HoldsLists(arrayKeys, fields)
    ensures var key := arrayKeys[j];
      var before := PartlyDeduped(arrayKeys, fields, j);
      key in before && before[key] == fields[key] && fields[key].Items?
      && PartlyDeduped(arrayKeys, fields, j + 1) ==
           if fields[key].items != [] then before[key := Items(Distinct(fields[key].items))] else before
  {
    var key := arrayKeys[j];
    assert arrayKeys[..j + 1] == arrayKeys[..j] + [key];
    assert key !in arrayKeys[..j];
    var before := PartlyDeduped(arrayKeys, fields, j);
    var after := PartlyDeduped(arrayKeys, fields, j + 1);
    var expected := if fields[key].items != [] then before[key := Items(Distinct(fields[key].items))] else before;
    forall k | k in fields ensures after[k] == expected[k] {
    }
    assert after.Keys == expected.Keys;
  }

  lemma DedupStart(arrayKeys: seq<string>, fields: map<string, Value>)
    ensures PartlyDeduped(arrayKeys, fields, 0) == fields
  {
  }

  /** After the rules, every list key holds a list. */
  lemma FieldsHoldLists(p: SheetProcessor, row: seq<string>)
    requires p.Valid()
    ensures HoldsLists(p.arrayKeys, FieldsAfter(p, |p.config.mapping|, row))
  {
    forall k | k in p.arrayKeys ensures k in p.orderedKeys {
      ArrayKeyIsKey(p, k);
    }
  }

  lemma DedupDone(p: SheetProcessor, row: seq<string>)
    requires p.Valid()
    ensures PartlyDeduped(p.arrayKeys, FieldsAfter(p, |p.config.mapping|, row), |p.arrayKeys|) == RowRecord(p, row).fields
  {
    assert p.arrayKeys[..|p.arrayKeys|] == p.arrayKeys;
  }

  /** The record `_process_row` starts from: `[]` for every list key, `""` for the others. */
  function InitialFields(p: SheetProcessor): (r: map<string, Value>) {
    map k | k in p.orderedKeys :: if k in p.arrayKeys then Items([]) else Scalar("")
  }

  lemma InitialFieldsAfterNoRule(p: SheetProcessor, row: seq<string>)
    requires p.Valid()
    ensures FieldsAfter(p, 0, row) == InitialFields(p)
  {
  }

  /** The contribution of a usable list cell, dispatched on the key as the source does. */
  method Contribution(key: string, value: string) returns (found: seq<string>)
    ensures found == Tokens(key, value)
  {
    if key == SingerKey {
      found := ParseSingers(value);
    } else if key == BrandKey && Contains(value, CrossBorder) {
      found := BrandParts(value);
    } else {
      found := SafeSplit(value);
    }
  }

  /** The cell of `row` in `column`, stripped; `""` past the end of the row. */
  method ReadCell(row: seq<string>, column: string) returns (value: string)
    requires IsColumn(column)
    ensures value == CellValue(row, column)
  {
    var idx := ColToIndex(column);
    assert idx == ColumnIndex(column);
    if idx < |row| && row[idx] != [] {
      value := Strip(row[idx]);
    } else {
      value := "";
    }
  }

  /** One iteration of the loop over `col_map.items()`: read the cell, skip it when
      blank or ignored, otherwise extend the list or assign the text. */
  method ApplyRule(p: SheetProcessor, row: seq<string>, i: nat, fields: map<string, Value>)
    returns (out: map<string, Value>)
    requires p.Valid() && i < |p.config.mapping|
    requires fields == FieldsAfter(p, i, row)
    ensures out == FieldsAfter(p, i + 1, row)
  {
    var rule := p.config.mapping[i];
    var value := ReadCell(row, rule.column);
    if value != "" && value !in p.config.ignoreValues {
      if rule.isArray {
        var found := Contribution(rule.key, value);
        FieldsArray(p, row, i);
        out := fields[rule.key := Items(fields[rule.key].items + found)];
      } else {
        FieldsScalar(p, row, i);
        out := fields[rule.key := Scalar(value)];
      }
    } else {
      FieldsSkip(p, row, i);
      out := fields;
    }
  }

  /** `_process_row`: start every key at `[]` or `""`, apply the rules in mapping order,
      then deduplicate every non-empty list field. */
  method ProcessRow(p: SheetProcessor, row: seq<string>) returns (r: Record)
    requires p.Valid()
    ensures r == RowRecord(p, row)
  {
    var fields := ApplyRules(p, row);
    FieldsHoldLists(p, row);
    DedupStart(p.arrayKeys, fields);
    fields := DedupLists(p.arrayKeys, fields);
    DedupDone(p, row);
    r := Record(p.orderedKeys, fields);
  }

  /** The loop over `col_map.items()`, from the initial record. */
  method ApplyRules(p: SheetProcessor, row: seq<string>) returns (fields: map<string, Value>)
    requires p.Valid()
    ensures fields == FieldsAfter(p, |p.config.mapping|, row)
  {
    fields := InitialFields(p);
    InitialFieldsAfterNoRule(p, row);
    var i := 0;
    while i < |p.config.mapping|
      invariant 0 <= i <= |p.config.mapping|
      invariant fields == FieldsAfter(p, i, row)
    {
      fields := ApplyRule(p, row, i, fields);
      i := i + 1;
    }
  }

  /** The closing loop over the list keys: every non-empty list loses its duplicates,
      first occurrences kept. */
  method DedupLists(arrayKeys: seq<string>, fields: map<string, Value>) returns (out: map<string, Value>)
    requires NoDup(arrayKeys) && HoldsLists(arrayKeys, fields)
    ensures out == PartlyDeduped(arrayKeys, fields, |arrayKeys|)
  {
    out := fields;
    var j := 0;
    while j < |arrayKeys|
      invariant 0 <= j <= |arrayKeys|
      invariant out == PartlyDeduped(arrayKeys, fields, j)
    {
      var key := arrayKeys[j];
      DedupStep(arrayKeys, fields, j);
      var items := out[key].items;
      if items != [] {
        out := out[key := Items(Distinct(items))];
      }
      j := j + 1;
    }
  }
}

/** What the record of one row holds, key by key. */
module SheetRowProperties {
  import opened Wrappers
  import opened Strings
  import opened Seqs
  import opened Singers
  import opened SheetRow

  /** The record has exactly the processor's keys, in first-appearance order, with
      a list exactly for the keys some list column fills. */
  lemma RecordShape(p: SheetProcessor, row: seq<string>)
    requires p.Valid()
    ensures var r := RowRecord(p, row);
      && r.keys == p.orderedKeys
      && NoDup(r.keys)
      && (forall k :: k in r.fields <==> HasRule(p.config.mapping, k))
      && (forall k :: k in r.fields ==> (r.fields[k].Items? <==> HasArrayRule(p.config.mapping, k)))
  {
  }

  /** Rule `i` is a usable cell of a text column for `key`. */
  predicate WritesText(ignore: set<string>, rules: seq<ColumnRule>, row: seq<string>, key: string, i: nat)
    requires ValidColumns(rules) && i < |rules|
  {
    !rules[i].isArray && rules[i].key == key && Usable(ignore, CellValue(row, rules[i].column))
  }

  /** The text field holds the value of the last rule that writes it: a later column
      overwrites an earlier one. */
  lemma LastWriterWins(ignore: set<string>, rules: seq<ColumnRule>, n: nat, row: seq<string>, key: string, i: nat)
    requires ValidColumns(rules) && i < n <= |rules|
    requires WritesText(ignore, rules, row, key, i)
    requires forall j :: i < j < n ==> !WritesText(ignore, rules, row, key, j)
    ensures LastScalar(ignore, rules, n, row, key) == Some(CellValue(row, rules[i].column))
  {
    var ws := Writes(ignore, rules, row, key);
    assert ws[i] == Write(ignore, rules[i], row, key);
    forall j | i < j < n ensures ws[j].None? {
      assert !WritesText(ignore, rules, row, key, j);
      WriteNone(ignore, rules, row, key, j);
    }
    LastSomeIs(ws, n, i);
  }

  lemma WriteNone(ignore: set<string>, rules: seq<ColumnRule>, row: seq<string>, key: string, j: nat)
    requires ValidColumns(rules) && j < |rules|
    ensures Writes(ignore, rules, row, key)[j].None? <==> !WritesText(ignore, rules, row, key, j)
  {
    assert Writes(ignore, rules, row, key)[j] == Write(ignore, rules[j], row, key);
  }

  /** A text field keeps its initial `""` exactly when no rule writes it. */
  lemma NoWriterKeepsEmpty(ignore: set<string>, rules: seq<ColumnRule>, n: nat, row: seq<string>, key: string)
    requires ValidColumns(rules) && n <= |rules|
    ensures LastScalar(ignore, rules, n, row, key) == None <==>
              forall j :: 0 <= j < n ==> !WritesText(ignore, rules, row, key, j)
  {
    var ws := Writes(ignore, rules, row, key);
    forall j | 0 <= j < n ensures ws[j].None? <==> !WritesText(ignore, rules, row, key, j) {
      WriteNone(ignore, rules, row, key, j);
    }
    LastSomeNone(ws, n);
  }

  /** A text field of the record is the value of its last writer, or `""`. */
  lemma ScalarField(p: SheetProcessor, row: seq<string>, key: string)
    requires p.Valid() && key in p.orderedKeys && key !in p.arrayKeys
    ensures RowRecord(p, row).fields[key]
            == Scalar(LastScalar(p.config.ignoreValues, p.config.mapping, |p.config.mapping|, row, key).GetOr(""))
  {
  }

  /** Earlier columns' contributions come first: the list after `m` rules is a prefix of
      the list after `n >= m` rules. */
  lemma AccumulatedGrows(ignore: set<string>, rules: seq<ColumnRule>, m: nat, n: nat, row: seq<string>, key: string)
    requires ValidColumns(rules) && m <= n <= |rules|
    ensures Accumulated(ignore, rules, m, row, key) <= Accumulated(ignore, rules, n, row, key)
  {
    FlattenGrows(Pieces(ignore, rules, row, key), m, n);
  }

  /** The list holds exactly the tokens of the usable list cells for `key`. */
  lemma AccumulatedMembers(ignore: set<string>, rules: seq<ColumnRule>, n: nat, row: seq<string>, key: string, x: string)
    requires ValidColumns(rules) && n <= |rules|
    ensures x in Accumulated(ignore, rules, n, row, key) <==>
      exists i :: 0 <= i < n && rules[i].isArray && rules[i].key == key
        && Usable(ignore, CellValue(row, rules[i].column)) && x in Tokens(key, CellValue(row, rules[i].column))
  {
    var ps := Pieces(ignore, rules, row, key);
    FlattenMembers(ps, n, x);
    forall i | 0 <= i < n ensures ps[i] == Piece(ignore, rules[i], row, key) {
    }
  }

  /** Every accumulated item is non-empty and stripped. */
  lemma AccumulatedAreNames(ignore: set<string>, rules: seq<ColumnRule>, n: nat, row: seq<string>, key: string)
    requires ValidColumns(rules) && n <= |rules|
    ensures AllNames(Accumulated(ignore, rules, n, row, key))
  {
    var ps := Pieces(ignore, rules, row, key);
    forall i | 0 <= i < n ensures AllNames(ps[i]) {
      assert ps[i] == Piece(ignore, rules[i], row, key);
      TokensAreNames(key, CellValue(row, rules[i].column));
    }
    FlattenNames(ps, n);
  }

  /** A list field holds each accumulated item once, in order of first occurrence, and
      nothing else; every item is non-empty and stripped. */
  lemma ListField(p: SheetProcessor, row: seq<string>, key: string)
    requires p.Valid() && key in p.arrayKeys
    ensures var acc := Accumulated(p.config.ignoreValues, p.config.mapping, |p.config.mapping|, row, key);
      var f := RowRecord(p, row).fields;
      && key in f && f[key].Items?
      && NoDup(f[key].items)
      && (forall x :: x in f[key].items <==> x in acc)
      && (forall i, j :: 0 <= i < j < |f[key].items| ==> FirstIndex(acc, f[key].items[i]) < FirstIndex(acc, f[key].items[j]))
      && AllNames(f[key].items)
  {
    var acc := Accumulated(p.config.ignoreValues, p.config.mapping, |p.config.mapping|, row, key);
    ArrayKeyIsKey(p, key);
    DistinctOrder(acc);
    AccumulatedAreNames(p.config.ignoreValues, p.config.mapping, |p.config.mapping|, row, key);
    var items := RowRecord(p, row).fields[key].items;
    forall j | 0 <= j < |items| ensures items[j] != [] && IsStripped(items[j]) {
      assert items[j] in acc;
    }
  }

  /** A row none of whose mapped cells is usable yields the initial record. */
  lemma NoUsableCell(p: SheetProcessor, row: seq<string>)
    requires p.Valid()
    requires forall i :: 0 <= i < |p.config.mapping| ==>
               !Usable(p.config.ignoreValues, CellValue(row, p.config.mapping[i].column))
    ensures RowRecord(p, row).fields == InitialFields(p)
  {
    var rules := p.config.mapping;
    var ignore := p.config.ignoreValues;
    var n := |rules|;
    forall k | k in p.orderedKeys ensures Dedup(FieldAfter(p, n, row, k)) == InitialFields(p)[k] {
      var ps := Pieces(ignore, rules, row, k);
      var ws := Writes(ignore, rules, row, k);
      forall i | 0 <= i < n ensures ps[i] == [] && ws[i].None? {
        assert ps[i] == Piece(ignore, rules[i], row, k);
        assert ws[i] == Write(ignore, rules[i], row, k);
      }
      FlattenEmpty(ps, n);
      LastSomeNone(ws, n);
    }
  }
}
