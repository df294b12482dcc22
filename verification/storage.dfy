/** The visit log kept in the BIVA_LOGS worksheet: the row a visit is saved
    as, the number cleaning applied when reading it back, and the patient
    history frame built from the worksheet's grid of text cells. */
module Storage {
  import opened Wrappers
  import opened Numbers
  import opened Text
  import opened Cells

  // ---------------------------------------------------------------------
  // clean_float

  /** The text `clean_float` hands to `float()`: decimal comma turned into a
      point, percent signs dropped, trimmed. */
  function FloatText(v: string): (t: string)
    ensures ',' !in t && '%' !in t
    ensures t == [] || (!IsSpace(t[0]) && !IsSpace(t[|t| - 1]))
  {
    Strip(RemoveChar(ReplaceChar(v, ',', '.'), '%'))
  }

  /** `clean_float`: 0.0 for a missing or blank value, otherwise the parsed
      cleaned text, 0.0 when it does not parse. */
  function CleanFloat(value: Option<string>, parse: string -> Option<real>): (r: real)
    ensures value.None? ==> r == 0.0
    ensures value.Some? && Strip(value.value) == [] ==> r == 0.0
    ensures value.Some? && Strip(value.value) != [] && parse(FloatText(value.value)).None? ==> r == 0.0
    ensures value.Some? && Strip(value.value) != [] && parse(FloatText(value.value)).Some? ==>
      r == parse(FloatText(value.value)).value
  {
    match value
    case None => 0.0
    case Some(v) => if Strip(v) == [] then 0.0 else parse(FloatText(v)).GetOr(0.0)
  }

  /** A value written with a decimal comma, as `save_visit` writes it. */
  function SheetDecimal(s: string): (r: string)
    ensures '.' !in r
    ensures |r| == |s|
  {
    ReplaceChar(s, '.', ',')
  }

  /** Cleaning undoes the decimal comma: a text without commas or percent
      signs cleans to the same text whether or not its points were written
      as commas. */
  lemma FloatTextUndoesSheetDecimal(s: string)
    requires ',' !in s && '%' !in s
    ensures FloatText(SheetDecimal(s)) == FloatText(s) == Strip(s)
  {
    assert ReplaceChar(SheetDecimal(s), ',', '.') == s;
    assert ReplaceChar(s, ',', '.') == s;
    RemoveCharAbsent(s, '%');
  }

  lemma {:induction false} RemoveCharAbsent(s: string, c: char)
    requires c !in s
    ensures RemoveChar(s, c) == s
  {
    if s != [] {
      RemoveCharAbsent(s[1..], c);
    }
  }

  /** The round trip of a saved decimal: when Python's `float` reads `str(x)`
      back as `x`, `clean_float` reads the comma-decimal field back as `x`. */
  lemma CleanFloatReadsSheetDecimal(x: real, show: real -> string, parse: string -> Option<real>)
    requires ',' !in show(x) && '%' !in show(x)
    requires show(x) != [] && !IsSpace(show(x)[0]) && !IsSpace(show(x)[|show(x)| - 1])
    requires parse(show(x)) == Some(x)
    ensures CleanFloat(Some(SheetDecimal(show(x))), parse) == x
  {
    var s := show(x);
    var t := SheetDecimal(s);
    assert Strip(t) != [] by {
      StripBlank(t);
      assert !IsSpace(t[0]);
    }
    assert FloatText(t) == s by {
      FloatTextUndoesSheetDecimal(s);
      StripUnchanged(s);
    }
  }

  /** A thousands separator defeats the cleaning: "1.234,5" reaches
      `float()` as "1.234.5", which Python rejects. */
  lemma ThousandsSeparatorExample(v: string)
    requires v == "1.234,5"
    ensures FloatText(v) == "1.234.5"
  {
    var u := ReplaceChar(v, ',', '.');
    assert u == "1.234.5";
    assert RemoveChar(u, '%') == u by {
      RemoveCharAbsent(u, '%');
    }
    assert Strip(u) == u by {
      StripUnchanged(u);
    }
  }

  /** A cell of percent signs only is not blank, yet cleans to the empty
      text, which `float()` rejects. */
  lemma PercentSignsOnly(v: string)
    requires v != [] && forall i | 0 <= i < |v| :: v[i] == '%'
    ensures Strip(v) != [] && FloatText(v) == []
  {
    assert Strip(v) != [] by {
      StripBlank(v);
      assert !IsSpace(v[0]);
    }
    assert ReplaceChar(v, ',', '.') == v;
    assert RemoveChar(v, '%') == [] by {
      RemoveCharAll(v, '%');
    }
  }

  lemma {:induction false} RemoveCharAll(s: string, c: char)
    requires forall i | 0 <= i < |s| :: s[i] == c
    ensures RemoveChar(s, c) == []
  {
    if s != [] {
      RemoveCharAll(s[1..], c);
    }
  }

  // ---------------------------------------------------------------------
  // save_visit

  /** The row `save_visit` appends: the date (read from the clock, so a
      parameter), the name, the decimals with a comma, resistance and
      reactance truncated to whole ohms. `show` is Python's `str` of a float. */
  function VisitRow(date: string, name: string, weight: real, rz: real, xc: real,
                    pha: real, tbw: real, fmPerc: real, ffmKg: real,
                    show: real -> string): (row: seq<string>)
    ensures |row| == 9
    ensures row[0] == date && row[1] == name
    ensures forall k | k in {2, 5, 6, 7, 8} :: '.' !in row[k]
    ensures rz >= 0.0 ==> AllDigits(row[3])
    ensures xc >= 0.0 ==> AllDigits(row[4])
  {
    [date, name, SheetDecimal(show(weight)),
     IntToString(Trunc(rz)), IntToString(Trunc(xc)),
     SheetDecimal(show(pha)), SheetDecimal(show(tbw)),
     SheetDecimal(show(fmPerc)), SheetDecimal(show(ffmKg))]
  }

  /** The saved resistance is the whole-ohm part of the measured one, which
      `clean_float` reads back when `float` reads integer spellings
      correctly. */
  lemma VisitRowResistance(date: string, name: string, weight: real, rz: real, xc: real,
                           pha: real, tbw: real, fmPerc: real, ffmKg: real,
                           show: real -> string, parse: string -> Option<real>)
    requires parse(IntToString(Trunc(rz))) == Some(Trunc(rz) as real)
    ensures CleanFloat(Some(VisitRow(date, name, weight, rz, xc, pha, tbw, fmPerc, ffmKg, show)[3]), parse)
      == Trunc(rz) as real
    ensures rz - 1.0 < Trunc(rz) as real <= rz || rz <= Trunc(rz) as real < rz + 1.0
  {
    var s := IntToString(Trunc(rz));
    assert s == VisitRow(date, name, weight, rz, xc, pha, tbw, fmPerc, ffmKg, show)[3];
    IntegerSpelling(Trunc(rz));
    assert Strip(s) == s by {
      StripUnchanged(s);
    }
    assert FloatText(s) == s by {
      FloatTextUndoesSheetDecimal(s);
    }
  }

  /** The saved reactance, like the resistance, is the whole-ohm part of the
      measured one and reads back as such. */
  lemma VisitRowReactance(date: string, name: string, weight: real, rz: real, xc: real,
                          pha: real, tbw: real, fmPerc: real, ffmKg: real,
                          show: real -> string, parse: string -> Option<real>)
    requires parse(IntToString(Trunc(xc))) == Some(Trunc(xc) as real)
    ensures CleanFloat(Some(VisitRow(date, name, weight, rz, xc, pha, tbw, fmPerc, ffmKg, show)[4]), parse)
      == Trunc(xc) as real
    ensures xc - 1.0 < Trunc(xc) as real <= xc || xc <= Trunc(xc) as real < xc + 1.0
  {
    var s := IntToString(Trunc(xc));
    assert s == VisitRow(date, name, weight, rz, xc, pha, tbw, fmPerc, ffmKg, show)[4];
    IntegerSpelling(Trunc(xc));
    assert Strip(s) == s by {
      StripUnchanged(s);
    }
    assert FloatText(s) == s by {
      FloatTextUndoesSheetDecimal(s);
    }
  }

  /** Each comma-decimal field of the row cleans back to the trimmed `str`
      of its value, as long as that spelling has no comma or percent sign
      (Python's `str` of a float has neither). */
  lemma VisitRowDecimals(date: string, name: string, weight: real, rz: real, xc: real,
                         pha: real, tbw: real, fmPerc: real, ffmKg: real,
                         show: real -> string)
    ensures var row := VisitRow(date, name, weight, rz, xc, pha, tbw, fmPerc, ffmKg, show);
      (',' !in show(weight) && '%' !in show(weight) ==> FloatText(row[2]) == Strip(show(weight))) &&
      (',' !in show(pha) && '%' !in show(pha) ==> FloatText(row[5]) == Strip(show(pha))) &&
      (',' !in show(tbw) && '%' !in show(tbw) ==> FloatText(row[6]) == Strip(show(tbw))) &&
      (',' !in show(fmPerc) && '%' !in show(fmPerc) ==> FloatText(row[7]) == Strip(show(fmPerc))) &&
      (',' !in show(ffmKg) && '%' !in show(ffmKg) ==> FloatText(row[8]) == Strip(show(ffmKg)))
  {
    var row := VisitRow(date, name, weight, rz, xc, pha, tbw, fmPerc, ffmKg, show);
    assert row[2] == SheetDecimal(show(weight)) && row[5] == SheetDecimal(show(pha));
    assert row[6] == SheetDecimal(show(tbw)) && row[7] == SheetDecimal(show(fmPerc));
    assert row[8] == SheetDecimal(show(ffmKg));
    DecimalFieldCleans(show(weight));
    DecimalFieldCleans(show(pha));
    DecimalFieldCleans(show(tbw));
    DecimalFieldCleans(show(fmPerc));
    DecimalFieldCleans(show(ffmKg));
  }

  lemma DecimalFieldCleans(s: string)
    ensures ',' !in s && '%' !in s ==> FloatText(SheetDecimal(s)) == Strip(s)
  {
    if ',' !in s && '%' !in s {
      FloatTextUndoesSheetDecimal(s);
    }
  }

  /** An integer's spelling: a digit or a minus sign first, digits after. */
  lemma IntegerSpelling(n: int)
    ensures var s := IntToString(n);
      s != [] && (s[0] == '-' || IsDigit(s[0])) && forall i | 1 <= i < |s| :: IsDigit(s[i])
  {
    var s := IntToString(n);
    if n < 0 {
      assert s == "-" + NatToString(-n);
      assert forall i | 1 <= i < |s| :: s[i] == NatToString(-n)[i - 1];
    }
  }

  // ---------------------------------------------------------------------
  // get_patient_history

  /** A pandas frame: column labels and rows of cells. */
  datatype Frame = Frame(columns: seq<string>, rows: seq<seq<Value>>)

  /** Standard column names and the header spellings renamed to them, in
      the order the renaming visits them. */
  const Aliases: seq<(string, seq<string>)> := [
    ("PhA", ["pha", "phase", "angolo"]),
    ("FM%", ["fm%", "bf%", "massa grassa %", "fat%"]),
    ("TBW", ["tbw", "acqua", "water"]),
    ("Peso", ["peso", "weight", "kg"]),
    ("Data", ["data", "date"])
  ]

  /** The standard column whose cells stay text. */
  const DateColumn: string := "Data"

  /** The grid `get_all_values` returns has rows of equal length. */
  predicate Rectangular(data: seq<seq<string>>)
  {
    forall k | 0 <= k < |data| :: |data[k]| == |data[0]|
  }

  predicate Distinct(xs: seq<string>)
  {
    forall i, j | 0 <= i < j < |xs| :: xs[i] != xs[j]
  }

  /** The header row, each label trimmed and lower-cased. */
  function Headers(first: seq<string>): (hs: seq<string>)
    ensures |hs| == |first|
    ensures forall i | 0 <= i < |hs| :: hs[i] == Lower(Strip(first[i]))
  {
    seq(|first|, i requires 0 <= i < |first| => Lower(Strip(first[i])))
  }

  /** A label naming the patient column. */
  predicate IsNameHeader(h: string)
  {
    Contains(h, "paziente") || Contains(h, "nome") || Contains(h, "soggetto")
  }

  /** The first column whose label contains one of the name words. */
  function NameColumn(hs: seq<string>): (r: Option<nat>)
    ensures r.None? <==> forall i | 0 <= i < |hs| :: !IsNameHeader(hs[i])
    ensures r.Some? ==> (r.value < |hs| && IsNameHeader(hs[r.value]) &&
      forall i | 0 <= i < r.value :: !IsNameHeader(hs[i]))
  {
    if hs == [] then None
    else if IsNameHeader(hs[0]) then Some(0)
    else match NameColumn(hs[1..])
      case None => None
      case Some(k) =>
        assert forall i | 1 <= i <= k :: hs[i] == hs[1..][i - 1];
        Some(k + 1)
  }

  /** The comparison of the filter: both sides trimmed and lower-cased. */
  predicate SameName(cell: string, target: string)
  {
    Lower(Strip(cell)) == Lower(Strip(target))
  }

  /** The rows whose name cell matches, in their original order. */
  function RowsNamed(rows: seq<seq<string>>, col: nat, target: string): (r: seq<seq<string>>)
    requires forall k | 0 <= k < |rows| :: col < |rows[k]|
    ensures |r| <= |rows|
    ensures (forall k | 0 <= k < |rows| :: SameName(rows[k][col], target)) ==> r == rows
  {
    if rows == [] then []
    else
      var rest := RowsNamed(rows[1..], col, target);
      if SameName(rows[0][col], target) then [rows[0]] + rest else rest
  }

  /** A single row is kept or dropped on its own name cell. */
  lemma RowsNamedOne(x: seq<string>, col: nat, target: string)
    requires col < |x|
    ensures RowsNamed([x], col, target) == if SameName(x[col], target) then [x] else []
  {
    assert [x][1..] == [];
  }

  /** The filter works row by row: filtering two blocks of rows one after
      the other gives the filter of both, so order and repeated rows are
      kept. */
  lemma {:induction false} RowsNamedAppend(a: seq<seq<string>>, b: seq<seq<string>>, col: nat, target: string)
    requires forall k | 0 <= k < |a| :: col < |a[k]|
    requires forall k | 0 <= k < |b| :: col < |b[k]|
    ensures forall k | 0 <= k < |a + b| :: col < |(a + b)[k]|
    ensures RowsNamed(a + b, col, target) == RowsNamed(a, col, target) + RowsNamed(b, col, target)
    decreases |a|
  {
    if a == [] {
      assert a + b == b;
    } else {
      var a' := a[1..];
      assert forall k | 0 <= k < |a'| :: a'[k] == a[k + 1];
      RowsNamedAppend(a', b, col, target);
      RowsNamedCons(a[0], a', b, col, target);
      HeadAndTail(a, b);
    }
  }

  /** The inductive step of `RowsNamedAppend`, for a first block that starts
      with row `x`. */
  lemma RowsNamedCons(x: seq<string>, a: seq<seq<string>>, b: seq<seq<string>>, col: nat, target: string)
    requires col < |x|
    requires forall k | 0 <= k < |a| :: col < |a[k]|
    requires forall k | 0 <= k < |b| :: col < |b[k]|
    requires forall k | 0 <= k < |a + b| :: col < |(a + b)[k]|
    requires RowsNamed(a + b, col, target) == RowsNamed(a, col, target) + RowsNamed(b, col, target)
    ensures forall k | 0 <= k < |[x] + a| :: col < |([x] + a)[k]|
    ensures forall k | 0 <= k < |[x] + (a + b)| :: col < |([x] + (a + b))[k]|
    ensures RowsNamed([x] + (a + b), col, target) == RowsNamed([x] + a, col, target) + RowsNamed(b, col, target)
  {
    var h := if SameName(x[col], target) then [x] else [];
    RowsNamedStep(x, a, col, target);
    RowsNamedStep(x, a + b, col, target);
    ConcatAssociative(h, RowsNamed(a, col, target), RowsNamed(b, col, target));
  }

  /** One step of the filter: the first row, kept or not, in front of the
      filter of the others. */
  lemma RowsNamedStep(x: seq<string>, rest: seq<seq<string>>, col: nat, target: string)
    requires col < |x| && forall k | 0 <= k < |rest| :: col < |rest[k]|
    ensures forall k | 0 <= k < |[x] + rest| :: col < |([x] + rest)[k]|
    ensures RowsNamed([x] + rest, col, target) ==
      (if SameName(x[col], target) then [x] else []) + RowsNamed(rest, col, target)
  {
    var rows := [x] + rest;
    assert rows[0] == x && rows[1..] == rest;
  }

  lemma ConcatAssociative<T>(x: seq<T>, y: seq<T>, z: seq<T>)
    ensures x + (y + z) == (x + y) + z
  {
  }

  lemma HeadAndTail<T>(a: seq<T>, b: seq<T>)
    requires a != []
    ensures [a[0]] + a[1..] == a
    ensures [a[0]] + (a[1..] + b) == a + b
  {
  }

  /** The filter keeps exactly the rows that name the target. */
  lemma {:induction false} RowsNamedMembers(rows: seq<seq<string>>, col: nat, target: string)
    requires forall k | 0 <= k < |rows| :: col < |rows[k]|
    ensures forall x | x in RowsNamed(rows, col, target) :: x in rows && SameName(x[col], target)
    ensures forall x | x in rows && SameName(x[col], target) :: x in RowsNamed(rows, col, target)
    decreases |rows|
  {
    if rows != [] {
      assert rows == [rows[0]] + rows[1..];
      RowsNamedMembers(rows[1..], col, target);
    }
  }

  /** Every kept row names the target. */
  lemma RowsNamedSound(rows: seq<seq<string>>, col: nat, target: string)
    requires forall k | 0 <= k < |rows| :: col < |rows[k]|
    ensures forall k | 0 <= k < |RowsNamed(rows, col, target)| ::
      col < |RowsNamed(rows, col, target)[k]| && SameName(RowsNamed(rows, col, target)[k][col], target)
  {
    var r := RowsNamed(rows, col, target);
    RowsNamedMembers(rows, col, target);
    forall k | 0 <= k < |r|
      ensures col < |r[k]| && SameName(r[k][col], target)
    {
      assert r[k] in r;
    }
  }

  /** Kept rows have the width of the grid. */
  lemma RowsNamedWidth(rows: seq<seq<string>>, col: nat, target: string, n: nat)
    requires col < n && forall k | 0 <= k < |rows| :: |rows[k]| == n
    ensures forall k | 0 <= k < |RowsNamed(rows, col, target)| :: |RowsNamed(rows, col, target)[k]| == n
  {
    var r := RowsNamed(rows, col, target);
    RowsNamedMembers(rows, col, target);
    forall k | 0 <= k < |r|
      ensures |r[k]| == n
    {
      assert r[k] in r;
    }
  }

  /** Nothing is kept exactly when no row names the target. */
  lemma RowsNamedEmpty(rows: seq<seq<string>>, col: nat, target: string)
    requires forall k | 0 <= k < |rows| :: col < |rows[k]|
    ensures RowsNamed(rows, col, target) == [] <==> forall k | 0 <= k < |rows| :: !SameName(rows[k][col], target)
  {
    var r := RowsNamed(rows, col, target);
    RowsNamedMembers(rows, col, target);
    if r != [] {
      assert r[0] in r;
    }
    forall k | 0 <= k < |rows| && SameName(rows[k][col], target)
      ensures r != []
    {
      assert rows[k] in rows;
    }
  }

  /** The index of the first label among `names`. */
  function FirstIn(cols: seq<string>, names: seq<string>): (r: Option<nat>)
    ensures r.None? <==> forall j | 0 <= j < |cols| :: cols[j] !in names
    ensures r.Some? ==> (r.value < |cols| && cols[r.value] in names &&
      forall j | 0 <= j < r.value :: cols[j] !in names)
  {
    if cols == [] then None
    else if cols[0] in names then Some(0)
    else match FirstIn(cols[1..], names)
      case None => None
      case Some(k) =>
        assert forall j | 1 <= j <= k :: cols[j] == cols[1..][j - 1];
        Some(k + 1)
  }

  /** One step of the renaming: the first column among `names` takes the
      name `key`; the loop breaks after it, so later matches keep theirs. */
  function RenameFirst(cols: seq<string>, key: string, names: seq<string>): (r: seq<string>)
    ensures |r| == |cols|
  {
    match FirstIn(cols, names)
    case None => cols
    case Some(j) => cols[j := key]
  }

  /** Exactly the first column among `names` is renamed. */
  lemma RenameFirstSpec(cols: seq<string>, key: string, names: seq<string>)
    ensures (forall j | 0 <= j < |cols| :: cols[j] !in names) ==> RenameFirst(cols, key, names) == cols
    ensures forall j | 0 <= j < |cols| ::
      var renamed := cols[j] in names && forall i | 0 <= i < j :: cols[i] !in names;
      RenameFirst(cols, key, names)[j] == if renamed then key else cols[j]
  {
  }

  /** All renaming steps, in order. */
  function RenameAll(cols: seq<string>, aliases: seq<(string, seq<string>)>): (r: seq<string>)
    ensures |r| == |cols|
    decreases |aliases|
  {
    if aliases == [] then cols
    else RenameAll(RenameFirst(cols, aliases[0].0, aliases[0].1), aliases[1..])
  }

  /** The standard columns whose cells are cleaned into numbers. */
  predicate IsNumericColumn(c: string)
  {
    c != DateColumn && exists k | 0 <= k < |Aliases| :: Aliases[k].0 == c
  }

  /** A cell of the result: cleaned into a number in a renamed numeric
      column, kept as text elsewhere. */
  function FrameCell(column: string, cell: string, parse: string -> Option<real>): (v: Value)
    ensures IsNumericColumn(column) ==> v == Num(CleanFloat(Some(cell), parse))
    ensures !IsNumericColumn(column) ==> v == Text(cell)
  {
    if IsNumericColumn(column) then Num(CleanFloat(Some(cell), parse)) else Text(cell)
  }

  function FrameRow(cols: seq<string>, cells: seq<string>, parse: string -> Option<real>): (r: seq<Value>)
    requires |cells| == |cols|
    ensures |r| == |cols|
    ensures forall j | 0 <= j < |r| :: r[j] == FrameCell(cols[j], cells[j], parse)
  {
    seq(|cells|, j requires 0 <= j < |cells| => FrameCell(cols[j], cells[j], parse))
  }

  /** The pure part of `get_patient_history`: `None` stands for the empty
      frame returned when the grid has no data row, when no column names the
      patient, or when no row matches. */
  function PatientHistory(data: seq<seq<string>>, patientName: string,
                          parse: string -> Option<real>): (r: Option<Frame>)
    requires Rectangular(data)
    requires |data| > 0 ==> Distinct(Headers(data[0]))
    ensures |data| < 2 ==> r.None?
    ensures |data| >= 2 && NameColumn(Headers(data[0])).None? ==> r.None?
    ensures r.Some? ==> (r.value.columns == StandardColumns(Headers(data[0])) && |r.value.rows| > 0 &&
      forall k | 0 <= k < |r.value.rows| :: |r.value.rows[k]| == |data[0]|)
  {
    if |data| < 2 then None
    else
      assert forall k | 0 <= k < |data[1..]| :: |data[1..][k]| == |data[0]| by {
        assert forall k | 0 <= k < |data[1..]| :: data[1..][k] == data[k + 1];
      }
      SheetHistory(Headers(data[0]), data[1..], patientName, parse)
  }

  /** The history read from the normalised header labels and the rows below
      them. */
  function SheetHistory(hs: seq<string>, rows: seq<seq<string>>, patientName: string,
                        parse: string -> Option<real>): (r: Option<Frame>)
    requires forall k | 0 <= k < |rows| :: |rows[k]| == |hs|
    ensures NameColumn(hs).None? ==> r.None?
    ensures r.Some? ==> (r.value.columns == StandardColumns(hs) && |r.value.rows| > 0 &&
      forall k | 0 <= k < |r.value.rows| :: |r.value.rows[k]| == |hs|)
  {
    match NameColumn(hs)
    case None => None
    case Some(col) => PatientFrame(StandardColumns(hs), rows, col, patientName, parse)
  }

  /** The header labels after the renaming. */
  function StandardColumns(hs: seq<string>): (cols: seq<string>)
    ensures |cols| == |hs|
  {
    RenameAll(hs, Aliases)
  }

  /** The frame of the rows naming the patient, with the standard column
      names; `None` when no row names them. */
  function PatientFrame(cols: seq<string>, rows: seq<seq<string>>, col: nat, patientName: string,
                        parse: string -> Option<real>): (r: Option<Frame>)
    requires col < |cols|
    requires forall k | 0 <= k < |rows| :: |rows[k]| == |cols|
    ensures r.None? <==> RowsNamed(rows, col, patientName) == []
    ensures r.Some? ==> (r.value.columns == cols && |r.value.rows| > 0 &&
      forall k | 0 <= k < |r.value.rows| :: |r.value.rows[k]| == |cols|)
    ensures r.Some? ==> var kept := RowsNamed(rows, col, patientName);
      |r.value.rows| == |kept| &&
      forall k | 0 <= k < |kept| :: |kept[k]| == |cols| && r.value.rows[k] == FrameRow(cols, kept[k], parse)
  {
    var kept := RowsNamed(rows, col, patientName);
    if kept == [] then None
    else
      assert forall k | 0 <= k < |kept| :: |kept[k]| == |cols| by {
        RowsNamedWidth(rows, col, patientName, |cols|);
      }
      Some(Frame(cols, FrameRows(cols, kept, parse)))
  }

  /** The kept rows, cell by cell. */
  function FrameRows(cols: seq<string>, kept: seq<seq<string>>, parse: string -> Option<real>): (r: seq<seq<Value>>)
    requires forall k | 0 <= k < |kept| :: |kept[k]| == |cols|
    ensures |r| == |kept|
    ensures forall k | 0 <= k < |r| :: r[k] == FrameRow(cols, kept[k], parse)
  {
    seq(|kept|, k requires 0 <= k < |kept| => FrameRow(cols, kept[k], parse))
  }

  // ---------------------------------------------------------------------
  // Properties of the history frame

  /** A lower-cased header never spells a standard column name, each of
      which has a capital letter. */
  lemma HeaderIsNotStandard(h: string)
    requires forall i | 0 <= i < |h| :: !IsAsciiUpper(h[i])
    ensures forall k | 0 <= k < |Aliases| :: h != Aliases[k].0
  {
    forall k | 0 <= k < |Aliases|
      ensures h != Aliases[k].0
    {
      var key := Aliases[k].0;
      assert IsAsciiUpper(key[0]);
    }
  }

  /** A label without a 'z', without one of 'n' and 'm', and without one
      of 'g', 't' and 'o' contains none of the name words. */
  predicate LacksNameLetters(a: string)
  {
    'z' !in a && ('n' !in a || 'm' !in a) && ('g' !in a || 't' !in a || 'o' !in a)
  }

  lemma NotNameHeader(a: string)
    requires LacksNameLetters(a)
    ensures !IsNameHeader(a)
  {
    if Contains(a, "paziente") {
      ContainsAllChars(a, "paziente");
    }
    if Contains(a, "nome") {
      ContainsAllChars(a, "nome");
    }
    if Contains(a, "soggetto") {
      ContainsAllChars(a, "soggetto");
    }
  }

  /** No alias contains a name word, so the name column is never renamed. */
  lemma AliasIsNotNameHeader(k: nat, a: string)
    requires k < |Aliases| && a in Aliases[k].1
    ensures !IsNameHeader(a)
  {
    assert LacksNameLetters(a) by {
      if k == 0 {
        assert a in ["pha", "phase", "angolo"];
      } else if k == 1 {
        assert a in ["fm%", "bf%", "massa grassa %", "fat%"];
      } else if k == 2 {
        assert a in ["tbw", "acqua", "water"];
      } else if k == 3 {
        assert a in ["peso", "weight", "kg"];
      } else {
        assert a in ["data", "date"];
      }
    }
    NotNameHeader(a);
  }

  /** After the renaming, the name column keeps its label. */
  lemma {:induction false} RenameKeepsNameColumn(cols: seq<string>, aliases: seq<(string, seq<string>)>, col: nat)
    requires col < |cols| && IsNameHeader(cols[col])
    requires forall k | 0 <= k < |aliases| :: aliases[k] in Aliases
    ensures RenameAll(cols, aliases)[col] == cols[col]
    decreases |aliases|
  {
    if aliases != [] {
      if cols[col] in aliases[0].1 {
        var k :| 0 <= k < |Aliases| && Aliases[k] == aliases[0];
        AliasIsNotNameHeader(k, cols[col]);
      }
      RenameFirstSpec(cols, aliases[0].0, aliases[0].1);
      RenameKeepsNameColumn(RenameFirst(cols, aliases[0].0, aliases[0].1), aliases[1..], col);
    }
  }

  /** The name column keeps its label and its text. */
  lemma NameColumnStaysText(hs: seq<string>, col: nat)
    requires col < |hs| && IsNameHeader(hs[col])
    requires forall i | 0 <= i < |hs[col]| :: !IsAsciiUpper(hs[col][i])
    ensures StandardColumns(hs)[col] == hs[col]
    ensures !IsNumericColumn(StandardColumns(hs)[col])
  {
    RenameKeepsNameColumn(hs, Aliases, col);
    HeaderIsNotStandard(hs[col]);
  }

  /** The frame is empty exactly when no row names the patient. */
  lemma PatientFrameFound(cols: seq<string>, rows: seq<seq<string>>, col: nat, patientName: string,
                          parse: string -> Option<real>)
    requires col < |cols|
    requires forall k | 0 <= k < |rows| :: |rows[k]| == |cols|
    ensures PatientFrame(cols, rows, col, patientName, parse).Some? <==>
      exists k | 0 <= k < |rows| :: SameName(rows[k][col], patientName)
  {
    RowsNamedEmpty(rows, col, patientName);
  }

  /** Every row of the frame names the patient, and its name cell stays
      text. */
  lemma PatientFrameNameCells(cols: seq<string>, rows: seq<seq<string>>, col: nat, patientName: string,
                              parse: string -> Option<real>)
    requires col < |cols| && !IsNumericColumn(cols[col])
    requires forall k | 0 <= k < |rows| :: |rows[k]| == |cols|
    requires PatientFrame(cols, rows, col, patientName, parse).Some?
    ensures var f := PatientFrame(cols, rows, col, patientName, parse).value;
      forall k | 0 <= k < |f.rows| :: f.rows[k][col].Text? && SameName(f.rows[k][col].text, patientName)
  {
    var kept := RowsNamed(rows, col, patientName);
    RowsNamedSound(rows, col, patientName);
    RowsNamedWidth(rows, col, patientName, |cols|);
    var f := PatientFrame(cols, rows, col, patientName, parse).value;
    assert f.rows == FrameRows(cols, kept, parse);
    forall k | 0 <= k < |f.rows|
      ensures f.rows[k][col] == Text(kept[k][col])
    {
    }
  }

  /** Every row naming the patient is in the frame. */
  lemma PatientFrameComplete(cols: seq<string>, rows: seq<seq<string>>, col: nat, patientName: string,
                             parse: string -> Option<real>, k: nat)
    requires col < |cols|
    requires forall k | 0 <= k < |rows| :: |rows[k]| == |cols|
    requires k < |rows| && SameName(rows[k][col], patientName)
    ensures PatientFrame(cols, rows, col, patientName, parse).Some?
    ensures var f := PatientFrame(cols, rows, col, patientName, parse).value;
      FrameRow(cols, rows[k], parse) in f.rows
  {
    var kept := RowsNamed(rows, col, patientName);
    RowsNamedMembers(rows, col, patientName);
    RowsNamedEmpty(rows, col, patientName);
    assert rows[k] in rows;
    assert rows[k] in kept;
    var j :| 0 <= j < |kept| && kept[j] == rows[k];
    var f := PatientFrame(cols, rows, col, patientName, parse).value;
    assert f.rows[j] == FrameRow(cols, rows[k], parse);
  }

  /** Below the header, the history is the frame of the patient's rows. */
  lemma HistoryIsFrame(data: seq<seq<string>>, patientName: string,
                       parse: string -> Option<real>, col: nat)
    requires Rectangular(data) && |data| >= 2 && Distinct(Headers(data[0]))
    requires NameColumn(Headers(data[0])) == Some(col)
    ensures col < |data[0]|
    ensures forall k | 0 <= k < |data[1..]| :: |data[1..][k]| == |data[0]|
    ensures PatientHistory(data, patientName, parse) ==
      PatientFrame(StandardColumns(Headers(data[0])), data[1..], col, patientName, parse)
  {
    assert forall k | 0 <= k < |data[1..]| :: data[1..][k] == data[k + 1];
  }

  /** The history is empty exactly when no row below the header names the
      patient. */
  lemma HistoryFound(data: seq<seq<string>>, patientName: string,
                     parse: string -> Option<real>, col: nat)
    requires Rectangular(data) && |data| >= 2 && Distinct(Headers(data[0]))
    requires NameColumn(Headers(data[0])) == Some(col)
    ensures PatientHistory(data, patientName, parse).Some? <==>
      exists k | 1 <= k < |data| :: SameName(data[k][col], patientName)
  {
    HistoryIsFrame(data, patientName, parse, col);
    PatientFrameFound(StandardColumns(Headers(data[0])), data[1..], col, patientName, parse);
    NamedBelowHeader(data, col, patientName);
  }

  /** A row below the header names the target exactly when a row of the
      tail does. */
  lemma NamedBelowHeader(data: seq<seq<string>>, col: nat, target: string)
    requires |data| >= 1 && forall k | 0 <= k < |data| :: col < |data[k]|
    ensures (exists k | 1 <= k < |data| :: SameName(data[k][col], target)) <==>
      (exists k | 0 <= k < |data[1..]| :: SameName(data[1..][k][col], target))
  {
    assert forall k | 0 <= k < |data[1..]| :: data[1..][k] == data[k + 1];
  }

  /** Every row of the history names the patient in its name cell, which
      stays text. */
  lemma HistoryNameCells(data: seq<seq<string>>, patientName: string,
                         parse: string -> Option<real>, col: nat)
    requires Rectangular(data) && |data| >= 2 && Distinct(Headers(data[0]))
    requires NameColumn(Headers(data[0])) == Some(col)
    requires PatientHistory(data, patientName, parse).Some?
    ensures var f := PatientHistory(data, patientName, parse).value;
      forall k | 0 <= k < |f.rows| :: f.rows[k][col].Text? && SameName(f.rows[k][col].text, patientName)
  {
    var hs := Headers(data[0]);
    var cols := StandardColumns(hs);
    HistoryIsFrame(data, patientName, parse, col);
    assert !IsNumericColumn(cols[col]) by {
      var h := Strip(data[0][col]);
      assert hs[col] == Lower(h);
      assert forall i | 0 <= i < |h| :: !IsAsciiUpper(Lower(h)[i]);
      NameColumnStaysText(hs, col);
    }
    PatientFrameNameCells(cols, data[1..], col, patientName, parse);
  }

  /** An illustration of `RenameFirstSpec`: only the first column among a
      standard name's aliases is renamed, so with both "peso" and "weight"
      present, "weight" keeps its label. */
  lemma OnlyFirstAliasRenamed(cols: seq<string>)
    requires cols == ["nome", "peso", "weight"]
    ensures RenameAll(cols, Aliases) == ["nome", "Peso", "weight"]
  {
    SkipFirstThreeAliases(cols);
    RenameWeightStep(cols);
    SkipLastAlias(["nome", "Peso", "weight"]);
  }

  lemma RenameWeightStep(cols: seq<string>)
    requires cols == ["nome", "peso", "weight"]
    ensures RenameFirst(cols, Aliases[3].0, Aliases[3].1) == ["nome", "Peso", "weight"]
  {
    WeightAliases();
    var names := ["peso", "weight", "kg"];
    RenameFirstSpec(cols, "Peso", names);
    assert "nome" !in names && "peso" in names;
  }

  lemma WeightAliases()
    ensures Aliases[3] == ("Peso", ["peso", "weight", "kg"])
  {
  }

  lemma SkipFirstThreeAliases(cols: seq<string>)
    requires cols == ["nome", "peso", "weight"]
    ensures RenameAll(cols, Aliases) ==
      RenameAll(RenameFirst(cols, Aliases[3].0, Aliases[3].1), Aliases[4..])
  {
    var a := Aliases;
    RenameAbsent(cols, a[0].0, a[0].1);
    RenameAbsent(cols, a[1].0, a[1].1);
    RenameAbsent(cols, a[2].0, a[2].1);
    assert a[1..][1..] == a[2..] && a[2..][1..] == a[3..] && a[3..][1..] == a[4..];
  }

  lemma SkipLastAlias(cols: seq<string>)
    requires cols == ["nome", "Peso", "weight"]
    ensures RenameAll(cols, Aliases[4..]) == cols
  {
    RenameAbsent(cols, Aliases[4].0, Aliases[4].1);
    assert Aliases[4..][1..] == [];
  }

  /** A step whose names match no column changes nothing. */
  lemma RenameAbsent(cols: seq<string>, key: string, names: seq<string>)
    requires forall j | 0 <= j < |cols| :: cols[j] !in names
    ensures RenameFirst(cols, key, names) == cols
  {
  }

  /** Renaming keeps the labels distinct: each step gives one column a
      standard name no column has yet. */
  lemma {:induction false} RenameAllDistinct(cols: seq<string>, aliases: seq<(string, seq<string>)>)
    requires Distinct(cols)
    requires forall k | 0 <= k < |aliases| :: aliases[k].0 !in cols
    requires forall k, l | 0 <= k < l < |aliases| :: aliases[k].0 != aliases[l].0
    ensures Distinct(RenameAll(cols, aliases))
    decreases |aliases|
  {
    if aliases != [] {
      var next := RenameFirst(cols, aliases[0].0, aliases[0].1);
      RenameFirstSpec(cols, aliases[0].0, aliases[0].1);
      assert forall j | 0 <= j < |next| :: next[j] == cols[j] || next[j] == aliases[0].0;
      assert forall k | 0 <= k < |aliases| - 1 :: aliases[1..][k] == aliases[k + 1];
      RenameAllDistinct(next, aliases[1..]);
    }
  }

  /** Distinct lower-case labels stay distinct after the renaming. */
  lemma StandardColumnsDistinct(hs: seq<string>)
    requires Distinct(hs)
    requires forall j | 0 <= j < |hs| :: forall i | 0 <= i < |hs[j]| :: !IsAsciiUpper(hs[j][i])
    ensures Distinct(StandardColumns(hs))
  {
    forall j | 0 <= j < |hs|
      ensures forall k | 0 <= k < |Aliases| :: hs[j] != Aliases[k].0
    {
      HeaderIsNotStandard(hs[j]);
    }
    StandardNamesDistinct();
    RenameAllDistinct(hs, Aliases);
  }

  /** The history frame's labels are distinct. */
  lemma HistoryColumnsDistinct(data: seq<seq<string>>, patientName: string,
                               parse: string -> Option<real>)
    requires Rectangular(data) && |data| >= 2 && Distinct(Headers(data[0]))
    requires PatientHistory(data, patientName, parse).Some?
    ensures Distinct(PatientHistory(data, patientName, parse).value.columns)
  {
    var hs := Headers(data[0]);
    assert Distinct(StandardColumns(hs)) by {
      forall j | 0 <= j < |hs|
        ensures forall i | 0 <= i < |hs[j]| :: !IsAsciiUpper(hs[j][i])
      {
        var h := Strip(data[0][j]);
        assert hs[j] == Lower(h);
      }
      StandardColumnsDistinct(hs);
    }
  }

  /** A standard column name: the first entry of an alias group. */
  predicate IsStandardName(c: string)
  {
    exists k | 0 <= k < |Aliases| :: Aliases[k].0 == c
  }

  /** The standard names, spelled out. */
  lemma StandardNameList(c: string)
    requires IsStandardName(c)
    ensures c == "PhA" || c == "FM%" || c == "TBW" || c == "Peso" || c == "Data"
  {
  }

  /** After the renaming, every label is the original one or the key of one
      of the renaming steps. */
  lemma {:induction false} RenameAllLabels(cols: seq<string>, aliases: seq<(string, seq<string>)>)
    ensures forall j | 0 <= j < |cols| ::
      RenameAll(cols, aliases)[j] == cols[j] ||
      exists k | 0 <= k < |aliases| :: RenameAll(cols, aliases)[j] == aliases[k].0
    decreases |aliases|
  {
    if aliases != [] {
      var next := RenameFirst(cols, aliases[0].0, aliases[0].1);
      RenameFirstSpec(cols, aliases[0].0, aliases[0].1);
      RenameAllLabels(next, aliases[1..]);
      forall j | 0 <= j < |cols|
        ensures RenameAll(cols, aliases)[j] == cols[j] ||
          exists k | 0 <= k < |aliases| :: RenameAll(cols, aliases)[j] == aliases[k].0
      {
        var r := RenameAll(cols, aliases)[j];
        if r != next[j] {
          var k :| 0 <= k < |aliases[1..]| && r == aliases[1..][k].0;
          assert r == aliases[k + 1].0;
        } else if next[j] != cols[j] {
          assert r == aliases[0].0;
        }
      }
    }
  }

  /** Every history column is a lower-cased header or a standard name. */
  lemma StandardColumnsLabels(hs: seq<string>)
    ensures forall j | 0 <= j < |hs| :: StandardColumns(hs)[j] == hs[j] || IsStandardName(StandardColumns(hs)[j])
  {
    RenameAllLabels(hs, Aliases);
  }

  lemma StandardNamesDistinct()
    ensures forall k, l | 0 <= k < l < |Aliases| :: Aliases[k].0 != Aliases[l].0
  {
  }
}
