/** Python string operations the bot relies on, written out over `seq<char>`:
    `in`, `startswith`, `split(sep)`, `strip()`, `int(...)` and the decimal
    rendering of an `int` inside an f-string. */
module Text {

  datatype Option<+T> = None | Some(value: T)

  predicate IsDigit(c: char) { '0' <= c <= '9' }

  /** The characters Python's `str.isspace()` accepts; `strip()` and `int()`
      remove exactly these from both ends. */
  predicate IsSpace(c: char) {
    c == ' ' || c == '\t' || c == '\n' || c == '\r' ||
    c == '\U{000B}' || c == '\U{000C}' ||
    ('\U{001C}' <= c <= '\U{001F}') ||
    c == '\U{0085}' || c == '\U{00A0}' || c == '\U{1680}' ||
    ('\U{2000}' <= c <= '\U{200A}') ||
    c == '\U{2028}' || c == '\U{2029}' || c == '\U{202F}' ||
    c == '\U{205F}' || c == '\U{3000}'
  }

  /** `s.startswith(prefix)` */
  predicate StartsWith(s: string, prefix: string) {
    |prefix| <= |s| && s[..|prefix|] == prefix
  }

  /** `sub` occurs in `s` starting at position `i`. */
  predicate OccursAt(s: string, sub: string, i: int) {
    0 <= i && i + |sub| <= |s| && s[i..i + |sub|] == sub
  }

  /** The lowest position at or after `i` where `sub` occurs in `s`. */
  function FindFrom(s: string, sub: string, i: nat): (r: Option<nat>)
    requires i <= |s|
    ensures r.Some? ==> i <= r.value && OccursAt(s, sub, r.value)
    ensures r.Some? ==> forall j :: i <= j < r.value ==> !OccursAt(s, sub, j)
    ensures r.None? ==> forall j :: i <= j ==> !OccursAt(s, sub, j)
    decreases |s| - i
  {
    if OccursAt(s, sub, i) then Some(i)
    else if i == |s| then None
    else FindFrom(s, sub, i + 1)
  }

  /** `s.find(sub)`, with `None` for Python's -1. */
  function Find(s: string, sub: string): Option<nat>
  {
    FindFrom(s, sub, 0)
  }

  /** `sub in s` */
  predicate Contains(s: string, sub: string) {
    Find(s, sub).Some?
  }

  lemma ContainsIff(s: string, sub: string)
    ensures Contains(s, sub) <==> exists i :: OccursAt(s, sub, i)
  {
  }

  /** `s.split(sep)` for a non-empty separator: the pieces between the
      non-overlapping occurrences of `sep`, scanning from the left. */
  function Split(s: string, sep: string): (parts: seq<string>)
    requires sep != []
    ensures |parts| >= 1
    decreases |s|
  {
    match Find(s, sep)
    case None => [s]
    case Some(i) => [s[..i]] + Split(s[i + |sep|..], sep)
  }

  /** `sep.join(parts)` */
  function Join(parts: seq<string>, sep: string): string
    requires |parts| >= 1
    decreases |parts|
  {
    if |parts| == 1 then parts[0] else parts[0] + sep + Join(parts[1..], sep)
  }

  function Last<T>(xs: seq<T>): T
    requires |xs| >= 1
  {
    xs[|xs| - 1]
  }

  /** A prefix grows by the next element. */
  lemma PrefixSnoc<T>(xs: seq<T>, i: nat)
    requires i < |xs|
    ensures xs[..i] + [xs[i]] == xs[..i + 1]
  {
  }

  lemma ConcatAssoc<T>(a: seq<T>, b: seq<T>, c: seq<T>)
    ensures (a + b) + c == a + (b + c)
  {
  }

  /** Splitting and joining again gives back the original string. */
  lemma {:induction false} JoinSplit(s: string, sep: string)
    requires sep != []
    ensures Join(Split(s, sep), sep) == s
    decreases |s|
  {
    match Find(s, sep)
    case None =>
    case Some(i) =>
      JoinSplit(s[i + |sep|..], sep);
      assert Split(s, sep) == [s[..i]] + Split(s[i + |sep|..], sep);
      assert s == s[..i] + sep + s[i + |sep|..];
  }

  /** A string that does not contain the separator is a single piece. */
  lemma SplitWithout(s: string, sep: string)
    requires sep != [] && !Contains(s, sep)
    ensures Split(s, sep) == [s]
  {
  }

  /** A string that contains the separator splits into at least two pieces,
      so `s.split(sep)[1]` does not raise `IndexError`. */
  lemma SplitWith(s: string, sep: string)
    requires sep != [] && Contains(s, sep)
    ensures |Split(s, sep)| >= 2
  {
  }

  /** `s.split(sep)[1]` exists exactly when `s` contains the separator. */
  lemma SplitHasSecond(s: string, sep: string)
    requires sep != []
    ensures |Split(s, sep)| >= 2 <==> Contains(s, sep)
  {
    if Contains(s, sep) {
      SplitWith(s, sep);
    } else {
      SplitWithout(s, sep);
    }
  }

  /** A string that starts with the separator splits with an empty first piece. */
  lemma SplitLeading(s: string, sep: string)
    requires sep != [] && StartsWith(s, sep)
    ensures |Split(s, sep)| >= 2 && Split(s, sep)[0] == ""
    ensures Split(s, sep)[1] == Split(s[|sep|..], sep)[0]
  {
    assert OccursAt(s, sep, 0);
  }

  /** The first piece of a split of `p + q` is `p` when `p` holds no separator
      character and `q` starts with the (one-character) separator. */
  lemma {:induction false} SplitFirstPiece(p: string, q: string, sep: char)
    requires sep !in p
    requires q != [] && q[0] == sep
    ensures Split(p + q, [sep])[0] == p
  {
    var s := p + q;
    assert OccursAt(s, [sep], |p|);
    forall j | 0 <= j < |p| ensures !OccursAt(s, [sep], j) {
      assert s[j] == p[j];
    }
    assert Find(s, [sep]) == Some(|p|);
  }

  /** The first piece of splitting `p` alone is `p` when it holds no separator. */
  lemma SplitNoSepChar(p: string, sep: char)
    requires sep !in p
    ensures Split(p, [sep]) == [p]
  {
    forall j | 0 <= j < |p| ensures !OccursAt(p, [sep], j) {
      assert p[j..j + 1][0] == p[j];
    }
  }

  /** The first piece of a split is the prefix of `s` before the lowest
      occurrence of `sep`, or all of `s` when there is none. */
  lemma SplitFirst(s: string, sep: string)
    requires sep != []
    ensures Split(s, sep)[0] == s[..|Split(s, sep)[0]|]
    ensures forall j :: 0 <= j < |Split(s, sep)[0]| ==> !OccursAt(s, sep, j)
    ensures |Split(s, sep)[0]| < |s| ==> OccursAt(s, sep, |Split(s, sep)[0]|)
  {
  }

  /** Splitting at the lowest occurrence `i` of the separator. */
  lemma SplitAt(s: string, sep: string, i: nat)
    requires sep != [] && OccursAt(s, sep, i)
    requires forall j :: 0 <= j < i ==> !OccursAt(s, sep, j)
    ensures Split(s, sep) == [s[..i]] + Split(s[i + |sep|..], sep)
  {
    assert Find(s, sep) == Some(i);
  }

  /** `sub` occurs in `a + sub + b` right after `a`. */
  lemma OccursBetween(a: string, sub: string, b: string)
    ensures OccursAt(a + sub + b, sub, |a|)
  {
    assert (a + sub + b)[|a|..|a| + |sub|] == sub;
  }

  /** A string that lacks one of the characters of `sub` does not contain `sub`. */
  lemma CharAbsent(s: string, sub: string, k: nat)
    requires k < |sub| && sub[k] !in s
    ensures !Contains(s, sub)
  {
    forall j | 0 <= j ensures !OccursAt(s, sub, j) {
      if j + |sub| <= |s| {
        assert s[j..j + |sub|][k] == s[j + k];
      }
    }
    ContainsIff(s, sub);
  }

  /** A prefix of `s` is a prefix of every extension of `s`. */
  lemma StartsWithAppend(s: string, prefix: string, rest: string)
    requires StartsWith(s, prefix)
    ensures StartsWith(s + rest, prefix)
  {
    assert (s + rest)[..|prefix|] == s[..|prefix|];
  }

  /** Splitting `a + [sep] + b` at `sep` gives back `a` and `b` when neither holds `sep`. */
  lemma SplitAround(a: string, sep: char, b: string)
    requires sep !in a && sep !in b
    ensures Split(a + [sep] + b, [sep]) == [a, b]
  {
    var s := a + [sep] + b;
    OccursBetween(a, [sep], b);
    forall j | 0 <= j < |a| ensures s[j] != sep {
      assert s[j] == a[j];
    }
    NoOccurrenceBefore(s, [sep], |a|);
    SplitAt(s, [sep], |a|);
    assert s[..|a|] == a;
    assert s[|a| + 1..] == b;
    SplitNoSepChar(b, sep);
  }

  /** A separator cannot occur where its first character does not. */
  lemma NoOccurrenceBefore(s: string, sep: string, n: nat)
    requires sep != [] && n <= |s|
    requires forall j :: 0 <= j < n ==> s[j] != sep[0]
    ensures forall j :: 0 <= j < n ==> !OccursAt(s, sep, j)
  {
    forall j | 0 <= j < n ensures !OccursAt(s, sep, j) {
      if j + |sep| <= |s| {
        assert s[j..j + |sep|][0] == s[j];
      }
    }
  }

  /** The first piece of a split keeps a prefix that holds no separator. */
  lemma SplitKeepsPrefix(s: string, prefix: string, sep: char)
    requires StartsWith(s, prefix) && sep !in prefix
    ensures StartsWith(Split(s, [sep])[0], prefix)
  {
    forall j | 0 <= j < |prefix| ensures !OccursAt(s, [sep], j) {
      assert s[j] == prefix[j];
      assert s[j..j + 1][0] == s[j];
    }
  }

  function StripStart(s: string): (r: string)
    ensures |r| <= |s| && r == s[|s| - |r|..]
    ensures r != [] ==> !IsSpace(r[0])
    ensures forall k :: 0 <= k < |s| - |r| ==> IsSpace(s[k])
  {
    if s != [] && IsSpace(s[0]) then StripStart(s[1..]) else s
  }

  function StripEnd(s: string): (r: string)
    ensures |r| <= |s| && r == s[..|r|]
    ensures r != [] ==> !IsSpace(r[|r| - 1])
    ensures forall k :: |r| <= k < |s| ==> IsSpace(s[k])
  {
    if s != [] && IsSpace(s[|s| - 1]) then StripEnd(s[..|s| - 1]) else s
  }

  /** `s.strip()`: the longest middle part of `s` with no whitespace at either end. */
  function Strip(s: string): string
  {
    StripEnd(StripStart(s))
  }

  /** A string that neither starts nor ends with whitespace is left as it is by `strip()`. */
  lemma StripUnchanged(s: string)
    requires s != [] ==> !IsSpace(s[0]) && !IsSpace(s[|s| - 1])
    ensures Strip(s) == s
  {
  }

  /** `strip()` keeps a prefix that has no whitespace in it. */
  lemma StripKeepsPrefix(s: string, prefix: string)
    requires StartsWith(s, prefix) && prefix != []
    requires forall k :: 0 <= k < |prefix| ==> !IsSpace(prefix[k])
    ensures StartsWith(Strip(s), prefix)
  {
    assert s[0] == prefix[0];
    assert StripStart(s) == s;
    var r := StripEnd(s);
    var last := |prefix| - 1;
    assert s[last] == prefix[last] && !IsSpace(s[last]);
    assert |r| > last;
    assert r[..|prefix|] == s[..|prefix|];
  }

  /** A run of ASCII digits with single underscores between digits, the
      integer literal grammar that `int()` accepts after the sign. */
  predicate ValidDigits(s: string) {
    s != [] && IsDigit(s[0]) &&
    forall k :: 0 <= k < |s| ==>
      IsDigit(s[k]) || (s[k] == '_' && k + 1 < |s| && IsDigit(s[k + 1]))
  }

  /** The value of a digit run, underscores skipped. */
  function DigitsValue(s: string): nat
    decreases |s|
  {
    if s == [] then 0
    else if IsDigit(s[|s| - 1]) then DigitsValue(s[..|s| - 1]) * 10 + (s[|s| - 1] as int - '0' as int)
    else DigitsValue(s[..|s| - 1])
  }

  /** `int(s)` for a string: `None` where Python raises `ValueError`. */
  function IntOf(s: string): Option<int>
  {
    var t := Strip(s);
    if t != [] && (t[0] == '+' || t[0] == '-') then
      var body := t[1..];
      if ValidDigits(body) then
        Some(if t[0] == '-' then -(DigitsValue(body) as int) else DigitsValue(body))
      else None
    else if ValidDigits(t) then Some(DigitsValue(t))
    else None
  }

  /** A word that starts with neither a digit nor a sign, and has no
      whitespace at either end, is not read by `int()`. */
  lemma NotAnInt(s: string)
    requires s != [] && !IsSpace(s[0]) && !IsSpace(s[|s| - 1])
    requires !IsDigit(s[0]) && s[0] != '+' && s[0] != '-'
    ensures IntOf(s) == None
  {
    StripUnchanged(s);
  }

  function DigitChar(d: nat): (c: char)
    requires d < 10
    ensures IsDigit(c)
  {
    ('0' as int + d) as char
  }

  /** How an f-string renders a non-negative `int`. */
  function Decimal(n: nat): (r: string)
    ensures r != []
    decreases n
  {
    if n < 10 then [DigitChar(n)] else Decimal(n / 10) + [DigitChar(n % 10)]
  }

  lemma {:induction false} DecimalDigits(n: nat)
    ensures forall k :: 0 <= k < |Decimal(n)| ==> IsDigit(Decimal(n)[k])
    ensures DigitsValue(Decimal(n)) == n
    decreases n
  {
    if n >= 10 {
      DecimalDigits(n / 10);
      var d := Decimal(n);
      assert d[..|d| - 1] == Decimal(n / 10);
    }
  }

  /** Reading back a rendered number with `int()` gives the number. */
  lemma DecimalRoundTrip(n: nat)
    ensures IntOf(Decimal(n)) == Some(n)
  {
    DecimalDigits(n);
    var d := Decimal(n);
    StripUnchanged(d);
    assert ValidDigits(d);
  }

  /** A rendered number holds no character other than a digit. */
  lemma DecimalHasNo(n: nat, c: char)
    requires !IsDigit(c)
    ensures c !in Decimal(n)
  {
    DecimalDigits(n);
  }
}
