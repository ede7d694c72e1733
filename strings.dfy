/**
 * The string idioms the extension builds its SQL text with: `join(",")`,
 * `slice(0, -1)` after a loop that appends `part + ","`, and the
 * `if (acc) { acc += ","; } acc += part` accumulation. `Split` is not used by
 * the extension; it is the inverse against which the joins are checked.
 */
module Strings {

  /** `parts.join(",")`. */
  function Join(parts: seq<string>): string
  {
    if |parts| == 0 then ""
    else if |parts| == 1 then parts[0]
    else parts[0] + "," + Join(parts[1..])
  }

  /** `s.slice(0, -1)`: everything but the last character; "" stays "". */
  function DropLast(s: string): string
  {
    if |s| == 0 then "" else s[..|s| - 1]
  }

  /** What `acc += part + ","` accumulates over `parts`, starting from "". */
  function Terminated(parts: seq<string>): string
  {
    if |parts| == 0 then "" else Terminated(parts[..|parts| - 1]) + parts[|parts| - 1] + ","
  }

  /** One step of `if (acc) { acc += ","; } acc += frag;`. */
  function AppendField(acc: string, frag: string): string
  {
    (if acc == "" then acc else acc + ",") + frag
  }

  /** `AppendField` applied to each fragment in turn. */
  function AppendAll(acc: string, frags: seq<string>): string
    decreases |frags|
  {
    if |frags| == 0 then acc else AppendAll(AppendField(acc, frags[0]), frags[1..])
  }

  function DropLeadingEmpty(frags: seq<string>): seq<string>
  {
    if |frags| > 0 && frags[0] == "" then DropLeadingEmpty(frags[1..]) else frags
  }

  function Flatten(fss: seq<seq<string>>): seq<string>
  {
    if |fss| == 0 then [] else fss[0] + Flatten(fss[1..])
  }

  function JoinEach(fss: seq<seq<string>>): (r: seq<string>)
    ensures |r| == |fss|
  {
    seq(|fss|, i requires 0 <= i < |fss| => Join(fss[i]))
  }

  function CommaIndex(s: string): (k: nat)
    requires ',' in s
    ensures k < |s| && s[k] == ',' && ',' !in s[..k]
  {
    if s[0] == ',' then 0 else 1 + CommaIndex(s[1..])
  }

  /** `s.split(",")`: the maximal comma-free pieces, at least one. */
  function Split(s: string): (parts: seq<string>)
    ensures |parts| > 0
    decreases |s|
  {
    if ',' in s then
      var k := CommaIndex(s);
      [s[..k]] + Split(s[k + 1..])
    else [s]
  }

  predicate CommaFree(parts: seq<string>)
  {
    forall i :: 0 <= i < |parts| ==> ',' !in parts[i]
  }

  lemma {:induction false} JoinAppend(a: seq<string>, b: seq<string>)
    requires |a| > 0 && |b| > 0
    ensures Join(a + b) == Join(a) + "," + Join(b)
  {
    if |a| == 1 {
      assert (a + b)[1..] == b;
    } else {
      assert (a + b)[1..] == a[1..] + b;
      JoinAppend(a[1..], b);
    }
  }

  lemma JoinSnoc(parts: seq<string>, p: string)
    requires |parts| > 0
    ensures Join(parts + [p]) == Join(parts) + "," + p
  {
    JoinAppend(parts, [p]);
  }

  /** Stripping the last comma of the terminated form gives the joined form. */
  lemma {:induction false} DropLastTerminated(parts: seq<string>)
    ensures DropLast(Terminated(parts)) == Join(parts)
    ensures |parts| > 0 ==> Terminated(parts) == Join(parts) + ","
  {
    if |parts| > 1 {
      var init := parts[..|parts| - 1];
      DropLastTerminated(init);
      JoinSnoc(init, parts[|parts| - 1]);
      assert init + [parts[|parts| - 1]] == parts;
    } else if |parts| == 1 {
      assert parts[..0] == [];
    }
  }

  lemma {:induction false} TerminatedSnoc(parts: seq<string>, p: string)
    ensures Terminated(parts + [p]) == Terminated(parts) + p + ","
  {
    assert (parts + [p])[..|parts|] == parts;
  }

  lemma {:induction false} TerminatedAppend(a: seq<string>, b: seq<string>)
    ensures Terminated(a + b) == Terminated(a) + Terminated(b)
    decreases |b|
  {
    if |b| == 0 {
      assert a + b == a;
    } else {
      var init, last := b[..|b| - 1], b[|b| - 1];
      assert a + b == (a + init) + [last];
      TerminatedSnoc(a + init, last);
      TerminatedAppend(a, init);
      assert b == init + [last];
      TerminatedSnoc(init, last);
      var ta, ti := Terminated(a), Terminated(init);
      assert ta + ti + last + "," == ta + (ti + last + ",");
    }
  }

  lemma {:induction false} AppendAllSnoc(acc: string, frags: seq<string>, f: string)
    ensures AppendAll(acc, frags + [f]) == AppendField(AppendAll(acc, frags), f)
    decreases |frags|
  {
    if |frags| > 0 {
      assert (frags + [f])[1..] == frags[1..] + [f];
      AppendAllSnoc(AppendField(acc, frags[0]), frags[1..], f);
    }
  }

  /** Once the accumulator is non-empty, every fragment gets its comma. */
  lemma {:induction false} AppendAllAfterNonEmpty(acc: string, frags: seq<string>)
    requires acc != "" && |frags| > 0
    ensures AppendAll(acc, frags) == acc + "," + Join(frags)
    decreases |frags|
  {
    var next := AppendField(acc, frags[0]);
    assert next == acc + "," + frags[0];
    if |frags| > 1 {
      AppendAllAfterNonEmpty(next, frags[1..]);
    }
  }

  /**
   * Starting from "", fragments that are empty while the accumulator is
   * still empty vanish without a comma; everything after is comma-joined.
   */
  lemma {:induction false} AppendAllFromEmpty(frags: seq<string>)
    ensures AppendAll("", frags) == Join(DropLeadingEmpty(frags))
    decreases |frags|
  {
    if |frags| > 0 {
      assert AppendField("", frags[0]) == "" + frags[0] == frags[0];
      if frags[0] == "" {
        AppendAllFromEmpty(frags[1..]);
      } else if |frags| > 1 {
        AppendAllAfterNonEmpty(frags[0], frags[1..]);
      }
    }
  }

  lemma AppendAllFromEmptyJoins(frags: seq<string>)
    requires |frags| == 0 || frags[0] != ""
    ensures AppendAll("", frags) == Join(frags)
  {
    AppendAllFromEmpty(frags);
  }

  /** Joining the joined groups is joining the flattened groups. */
  lemma {:induction false} JoinFlatten(fss: seq<seq<string>>)
    requires forall i :: 0 <= i < |fss| ==> |fss[i]| > 0
    ensures Join(JoinEach(fss)) == Join(Flatten(fss))
    ensures |fss| > 0 ==> |Flatten(fss)| > 0
  {
    if |fss| > 1 {
      JoinFlatten(fss[1..]);
      assert JoinEach(fss)[1..] == JoinEach(fss[1..]);
      JoinAppend(fss[0], Flatten(fss[1..]));
    } else if |fss| == 1 {
      assert fss[0] + [] == fss[0];
    }
  }

  lemma {:induction false} FlattenAppend(a: seq<seq<string>>, b: seq<seq<string>>)
    ensures Flatten(a + b) == Flatten(a) + Flatten(b)
  {
    if |a| > 0 {
      assert (a + b)[1..] == a[1..] + b;
      FlattenAppend(a[1..], b);
    } else {
      assert a + b == b;
    }
  }

  lemma {:induction false} FlattenLengths(a: seq<seq<string>>, b: seq<seq<string>>)
    requires |a| == |b|
    requires forall i :: 0 <= i < |a| ==> |a[i]| == |b[i]|
    ensures |Flatten(a)| == |Flatten(b)|
  {
    if |a| > 0 {
      FlattenLengths(a[1..], b[1..]);
    }
  }

  lemma CommaIndexOfJoin(p: string, rest: string)
    requires ',' !in p
    ensures ',' in p + "," + rest && CommaIndex(p + "," + rest) == |p|
  {
    var s := p + "," + rest;
    assert s[|p|] == ',';
    assert s[..|p|] == p;
    var k := CommaIndex(s);
  }

  /** Splitting undoes joining when no part holds a comma. */
  lemma {:induction false} SplitJoin(parts: seq<string>)
    requires |parts| > 0 && CommaFree(parts)
    ensures Split(Join(parts)) == parts
  {
    if |parts| > 1 {
      var p, rest := parts[0], Join(parts[1..]);
      var s := p + "," + rest;
      assert Join(parts) == s;
      CommaIndexOfJoin(p, rest);
      assert s[..|p|] == p;
      assert s[|p| + 1..] == rest;
      assert Split(s) == [p] + Split(rest);
      SplitJoin(parts[1..]);
      assert parts == [p] + parts[1..];
    }
  }
}
