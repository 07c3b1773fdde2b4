/**
 * The JavaScript string operations the extension manager relies on, on
 * `string` = `seq<char>`: `split` with a non-empty separator, `startsWith`
 * (written `indexOf(p) === 0` in the program), ASCII `toLowerCase`,
 * the relational `<` on strings, and the string coercion of a value that
 * may be `undefined`.
 */
module Text {
  import opened Wrappers

  /** `String(v)`: JavaScript turns `undefined` into the text "undefined",
      which is also what an object property key `o[undefined]` becomes. */
  function Coerce(v: Option<string>): string {
    match v
    case Some(s) => s
    case None => "undefined"
  }

  /** JavaScript truthiness of a string that may be undefined. */
  predicate Truthy(v: Option<string>) {
    v.Some? && v.value != ""
  }

  predicate StartsWith(s: string, prefix: string) {
    |prefix| <= |s| && s[..|prefix|] == prefix
  }

  /** `sep` occurs in `s` at position `i`. */
  predicate Occurs(s: string, sep: string, i: nat) {
    i + |sep| <= |s| && s[i..i + |sep|] == sep
  }

  /** The first occurrence of `sep` in `s` at or after `from`. */
  function IndexOf(s: string, sep: string, from: nat): (r: Option<nat>)
    ensures r.Some? ==> from <= r.value && r.value + |sep| <= |s|
    decreases |s| - from
  {
    if from + |sep| > |s| then None
    else if s[from..from + |sep|] == sep then Some(from)
    else IndexOf(s, sep, from + 1)
  }

  /** `IndexOf` answers the first occurrence at or after `from`, and nothing
      only when there is none. */
  lemma {:induction false} IndexOfSpec(s: string, sep: string, from: nat)
    ensures var r := IndexOf(s, sep, from);
            && (r.Some? ==> Occurs(s, sep, r.value) && forall k :: from <= k < r.value ==> !Occurs(s, sep, k))
            && (r.None? ==> forall k :: from <= k ==> !Occurs(s, sep, k))
    decreases |s| - from
  {
    if from + |sep| <= |s| && s[from..from + |sep|] != sep {
      IndexOfSpec(s, sep, from + 1);
    }
  }

  /** An occurrence with none before it is the one `IndexOf` answers. */
  lemma IndexOfFirst(s: string, sep: string, from: nat, p: nat)
    requires from <= p && Occurs(s, sep, p)
    requires forall k :: from <= k < p ==> !Occurs(s, sep, k)
    ensures IndexOf(s, sep, from) == Some(p)
  {
    IndexOfSpec(s, sep, from);
  }

  /** Without any occurrence, `IndexOf` answers nothing. */
  lemma IndexOfNone(s: string, sep: string, from: nat)
    requires forall k :: from <= k ==> !Occurs(s, sep, k)
    ensures IndexOf(s, sep, from).None?
  {
    IndexOfSpec(s, sep, from);
  }

  /** `s.split(sep)`: the pieces between the non-overlapping occurrences of
      `sep`, scanned left to right; there is always at least one piece. */
  function Split(s: string, sep: string): (parts: seq<string>)
    requires sep != ""
    ensures |parts| >= 1
    decreases |s|
  {
    match IndexOf(s, sep, 0)
    case None => [s]
    case Some(i) => [s[..i]] + Split(s[i + |sep|..], sep)
  }

  /** `parts.join(sep)`. */
  function Join(parts: seq<string>, sep: string): string {
    if |parts| == 0 then ""
    else if |parts| == 1 then parts[0]
    else parts[0] + sep + Join(parts[1..], sep)
  }

  /** Joining the pieces of a split with the same separator gives the text back. */
  lemma {:induction false} JoinSplit(s: string, sep: string)
    requires sep != ""
    ensures Join(Split(s, sep), sep) == s
    decreases |s|
  {
    IndexOfSpec(s, sep, 0);
    match IndexOf(s, sep, 0)
    case None =>
    case Some(i) =>
      var rest := s[i + |sep|..];
      var tail := Split(rest, sep);
      JoinSplit(rest, sep);
      assert Split(s, sep) == [s[..i]] + tail;
      assert Join([s[..i]] + tail, sep) == s[..i] + sep + Join(tail, sep) by {
        assert ([s[..i]] + tail)[1..] == tail;
      }
      assert s == s[..i] + s[i..i + |sep|] + rest;
  }

  /** In a text free of the one-character separator `c`, `c` first occurs right after it. */
  lemma FirstSeparator(a: string, c: char, b: string)
    requires c !in a
    ensures IndexOf(a + [c] + b, [c], 0) == Some(|a|)
  {
    var s := a + [c] + b;
    assert Occurs(s, [c], |a|) by { assert s[|a|..|a| + 1] == [c]; }
    forall k | 0 <= k < |a| ensures !Occurs(s, [c], k) {
      assert s[k..k + 1] == [a[k]];
    }
    IndexOfFirst(s, [c], 0, |a|);
  }

  /** No separator in a text: splitting it gives the text alone. */
  lemma SplitWithout(s: string, c: char)
    requires c !in s
    ensures Split(s, [c]) == [s]
  {
    forall k: nat ensures !Occurs(s, [c], k) {
      if k + 1 <= |s| {
        assert s[k..k + 1] == [s[k]];
      }
    }
    IndexOfNone(s, [c], 0);
  }

  /** A text that lacks the separator's first character splits into itself alone. */
  lemma SplitAbsent(s: string, sep: string)
    requires sep != "" && sep[0] !in s
    ensures Split(s, sep) == [s]
  {
    forall k: nat ensures !Occurs(s, sep, k) {
      if k + |sep| <= |s| {
        assert s[k..k + |sep|][0] == s[k] && s[k] in s;
      }
    }
    IndexOfNone(s, sep, 0);
  }

  /** Two pieces free of `c`, joined by `c`, split back into themselves. */
  lemma SplitTwo(a: string, b: string, c: char)
    requires c !in a && c !in b
    ensures Split(a + [c] + b, [c]) == [a, b]
  {
    var s := a + [c] + b;
    FirstSeparator(a, c, b);
    assert s[..|a|] == a;
    assert s[|a| + 1..] == b;
    SplitWithout(b, c);
  }

  /** Three pieces free of `c`, joined by `c`, split back into themselves. */
  lemma SplitThree(a: string, b: string, d: string, c: char)
    requires c !in a && c !in b && c !in d
    ensures Split(a + [c] + b + [c] + d, [c]) == [a, b, d]
  {
    var s := a + [c] + b + [c] + d;
    assert s == a + [c] + (b + [c] + d);
    FirstSeparator(a, c, b + [c] + d);
    assert s[..|a|] == a;
    assert s[|a| + 1..] == b + [c] + d;
    SplitTwo(b, d, c);
  }

  /** Splitting at a one-character separator undoes joining pieces that do not contain it. */
  lemma {:induction false} SplitJoin(parts: seq<string>, c: char)
    requires |parts| >= 1
    requires forall i :: 0 <= i < |parts| ==> c !in parts[i]
    ensures Split(Join(parts, [c]), [c]) == parts
    decreases |parts|
  {
    if |parts| == 1 {
      SplitWithout(parts[0], c);
    } else {
      var tail := Join(parts[1..], [c]);
      var s := parts[0] + [c] + tail;
      assert Join(parts, [c]) == s;
      FirstSeparator(parts[0], c, tail);
      assert s[..|parts[0]|] == parts[0];
      assert s[|parts[0]| + 1..] == tail;
      SplitJoin(parts[1..], c);
      assert parts == [parts[0]] + parts[1..];
    }
  }

  /** Every piece of a split at `c` is free of `c` and made of characters of the text. */
  lemma {:induction false} SplitPieces(s: string, c: char)
    ensures forall p :: p in Split(s, [c]) ==> c !in p && forall ch :: ch in p ==> ch in s
    decreases |s|
  {
    IndexOfSpec(s, [c], 0);
    match IndexOf(s, [c], 0)
    case None =>
      forall k | 0 <= k < |s| ensures s[k] != c {
        assert !Occurs(s, [c], k);
        assert s[k..k + 1] == [s[k]];
      }
    case Some(i) =>
      var rest := s[i + 1..];
      SplitPieces(rest, c);
      forall k | 0 <= k < i ensures s[k] != c {
        assert !Occurs(s, [c], k);
        assert s[k..k + 1] == [s[k]];
      }
      assert Split(s, [c]) == [s[..i]] + Split(rest, [c]);
      forall ch | ch in rest ensures ch in s {
        var k :| 0 <= k < |rest| && rest[k] == ch;
        assert s[i + 1 + k] == ch;
      }
      forall ch | ch in s[..i] ensures ch in s {
        var k :| 0 <= k < i && s[..i][k] == ch;
        assert s[k] == ch;
      }
  }

  /** ASCII `toLowerCase` of one character. */
  function LowerChar(ch: char): char {
    if 'A' <= ch <= 'Z' then (ch as int + 32) as char else ch
  }

  /** `toLowerCase`, restricted to ASCII letters. */
  function Lower(s: string): (r: string)
    ensures |r| == |s|
    ensures forall i :: 0 <= i < |s| ==> r[i] == LowerChar(s[i])
  {
    seq(|s|, i requires 0 <= i < |s| => LowerChar(s[i]))
  }

  /** JavaScript `a < b` on strings: lexicographic on code units, and a proper prefix is smaller. */
  predicate Less(a: string, b: string) {
    if |a| == 0 then |b| > 0
    else if |b| == 0 then false
    else if a[0] != b[0] then a[0] < b[0]
    else Less(a[1..], b[1..])
  }

  lemma {:induction false} LessIrreflexive(a: string)
    ensures !Less(a, a)
    decreases |a|
  {
    if |a| > 0 {
      LessIrreflexive(a[1..]);
    }
  }

  lemma {:induction false} LessTransitive(a: string, b: string, c: string)
    requires Less(a, b) && Less(b, c)
    ensures Less(a, c)
    decreases |a|
  {
    if |a| > 0 && |b| > 0 && |c| > 0 && a[0] == b[0] && b[0] == c[0] {
      LessTransitive(a[1..], b[1..], c[1..]);
    }
  }

  /** Two different strings are ordered one way or the other. */
  lemma {:induction false} LessTotal(a: string, b: string)
    requires a != b
    ensures Less(a, b) || Less(b, a)
    decreases |a|
  {
    if |a| > 0 && |b| > 0 && a[0] == b[0] {
      assert a == [a[0]] + a[1..] && b == [b[0]] + b[1..];
      LessTotal(a[1..], b[1..]);
    }
  }

  function DigitChar(d: nat): char
    requires d < 10
  {
    "0123456789"[d]
  }

  /** Decimal text of a natural number. */
  function Digits(n: nat): (r: string)
    ensures |r| >= 1
    decreases n
  {
    if n < 10 then [DigitChar(n)] else Digits(n / 10) + [DigitChar(n % 10)]
  }

  /** JavaScript `String(n)` of an integral number. */
  function Decimal(n: int): string {
    if n < 0 then "-" + Digits(-n) else Digits(n)
  }
}
