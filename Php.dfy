/** PHP values as the synchronisation code handles them: LDAP attribute
    strings, the decoded profile document, and the arrays it builds for node
    fields. Only the array functions the code calls are modelled. */
module Php {

  datatype Option<+T> = None | Some(value: T)

  /** A PHP value. `List` is an array whose keys are 0..n-1 in order (a JSON
      list, or an array built by appending positions); `Dict` is an array
      with string keys (a JSON object). */
  datatype Val =
    | Null
    | Bool(b: bool)
    | Int(i: int)
    | Str(s: string)
    | List(items: seq<Val>)
    | Dict(entries: map<string, Val>)

  /** `isset($m[$k])`: the key is present and its value is not null. */
  predicate Isset(m: map<string, Val>, k: string)
  {
    k in m && m[k] != Null
  }

  /** Reading `$m[$k]`: an absent key reads as null. */
  function At(m: map<string, Val>, k: string): Val
  {
    if k in m then m[k] else Null
  }

  /** `empty($v)`. */
  predicate Empty(v: Val)
  {
    match v
    case Null => true
    case Bool(b) => !b
    case Int(i) => i == 0
    case Str(s) => s == "" || s == "0"
    case List(items) => items == []
    case Dict(entries) => entries == map[]
  }

  /** `$v[$k]` with a string key: an entry of an associative array, null otherwise. */
  function Index(v: Val, k: string): Val
  {
    if v.Dict? then At(v.entries, k) else Null
  }

  /** `$v[$i]` with an integer position: an element of a list, null otherwise. */
  function Element(v: Val, i: nat): Val
  {
    if v.List? && i < |v.items| then v.items[i] else Null
  }

  /** The rows of an array argument; anything but a list has none here. */
  function Rows(v: Val): seq<Val>
  {
    if v.List? then v.items else []
  }

  /** `(string) $v` for the values a summary may hold; non-strings read as "". */
  function StringOf(v: Val): string
  {
    if v.Str? then v.s else ""
  }

  predicate HasColumn(row: Val, key: string)
  {
    row.Dict? && key in row.entries
  }

  /** `array_column($rows, $key)`: the `key` entry of every row that has
      one, in row order, re-indexed from 0. */
  function Column(rows: seq<Val>, key: string): (col: seq<Val>)
    ensures |col| <= |rows|
  {
    if rows == [] then []
    else (if HasColumn(rows[0], key) then [rows[0].entries[key]] else []) + Column(rows[1..], key)
  }

  /** When every row carries the key, the column is position-aligned with the rows. */
  lemma {:induction false} ColumnAligned(rows: seq<Val>, key: string)
    requires forall j :: 0 <= j < |rows| ==> HasColumn(rows[j], key)
    ensures |Column(rows, key)| == |rows|
    ensures forall j :: 0 <= j < |rows| ==> HasColumn(rows[j], key) && Column(rows, key)[j] == rows[j].entries[key]
  {
    if rows != [] {
      ColumnAligned(rows[1..], key);
    }
  }

  /** Every element of a column is the `key` entry of some row. */
  lemma {:induction false} ColumnFromRows(rows: seq<Val>, key: string, j: nat)
    requires j < |Column(rows, key)|
    ensures exists r :: 0 <= r < |rows| && HasColumn(rows[r], key) && rows[r].entries[key] == Column(rows, key)[j]
  {
    if HasColumn(rows[0], key) {
      if j > 0 {
        ColumnFromRows(rows[1..], key, j - 1);
        var r :| 0 <= r < |rows[1..]| && HasColumn(rows[1..][r], key) && rows[1..][r].entries[key] == Column(rows[1..], key)[j - 1];
        assert rows[r + 1] == rows[1..][r];
      }
    } else {
      ColumnFromRows(rows[1..], key, j);
      var r :| 0 <= r < |rows[1..]| && HasColumn(rows[1..][r], key) && rows[1..][r].entries[key] == Column(rows[1..], key)[j];
      assert rows[r + 1] == rows[1..][r];
    }
  }

  /** `explode(', ', $s)`: the pieces between the leftmost non-overlapping
      occurrences of ", ". There is always at least one piece. */
  function Explode(s: string): (pieces: seq<string>)
    ensures |pieces| >= 1
    decreases |s|
  {
    if |s| >= 2 && s[..2] == ", " then [""] + Explode(s[2..])
    else if s == [] then [""]
    else
      var rest := Explode(s[1..]);
      [[s[0]] + rest[0]] + rest[1..]
  }

  /** `implode(', ', $pieces)`, the inverse direction. */
  function Implode(pieces: seq<string>): string
  {
    if pieces == [] then ""
    else if |pieces| == 1 then pieces[0]
    else pieces[0] + ", " + Implode(pieces[1..])
  }

  predicate ContainsSeparator(p: string)
  {
    exists j :: 0 <= j < |p| - 1 && p[j] == ',' && p[j + 1] == ' '
  }

  lemma ImplodeGrowHead(c: char, rest: seq<string>)
    requires |rest| >= 1
    ensures Implode([[c] + rest[0]] + rest[1..]) == [c] + Implode(rest)
  {
    var pieces := [[c] + rest[0]] + rest[1..];
    if |rest| > 1 {
      assert pieces[1..] == rest[1..];
    }
  }

  /** Joining the exploded pieces gives back the original string. */
  lemma {:induction false} ImplodeExplode(s: string)
    ensures Implode(Explode(s)) == s
    decreases |s|
  {
    if |s| >= 2 && s[..2] == ", " {
      ImplodeExplode(s[2..]);
      var pieces := [""] + Explode(s[2..]);
      assert pieces[1..] == Explode(s[2..]);
      assert s == s[..2] + s[2..];
    } else if s != [] {
      var rest := Explode(s[1..]);
      ImplodeExplode(s[1..]);
      ImplodeGrowHead(s[0], rest);
      assert s == [s[0]] + s[1..];
    }
  }

  /** The first piece is a prefix of the string. */
  lemma {:induction false} ExplodeFirstIsPrefix(s: string)
    ensures Explode(s)[0] <= s
    decreases |s|
  {
    if |s| >= 2 && s[..2] == ", " {
    } else if s != [] {
      ExplodeFirstIsPrefix(s[1..]);
    }
  }

  /** No piece contains the separator. */
  lemma {:induction false} ExplodePiecesAreSeparatorFree(s: string)
    ensures forall i :: 0 <= i < |Explode(s)| ==> !ContainsSeparator(Explode(s)[i])
    decreases |s|
  {
    if |s| >= 2 && s[..2] == ", " {
      ExplodePiecesAreSeparatorFree(s[2..]);
      var pieces := [""] + Explode(s[2..]);
      forall i | 0 <= i < |pieces| ensures !ContainsSeparator(pieces[i]) {
        if i > 0 {
          assert pieces[i] == Explode(s[2..])[i - 1];
        }
      }
    } else if s != [] {
      var rest := Explode(s[1..]);
      ExplodePiecesAreSeparatorFree(s[1..]);
      ExplodeFirstIsPrefix(s[1..]);
      var head := [s[0]] + rest[0];
      var pieces := [head] + rest[1..];
      assert !ContainsSeparator(rest[0]);
      forall j | 0 <= j < |head| - 1 ensures !(head[j] == ',' && head[j + 1] == ' ') {
        if j > 0 {
          assert head[j] == rest[0][j - 1] && head[j + 1] == rest[0][j];
        }
      }
      forall i | 0 <= i < |pieces| ensures !ContainsSeparator(pieces[i]) {
        if i > 0 {
          assert pieces[i] == rest[i];
        }
      }
    }
  }
}
