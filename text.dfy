/** Text operations the filter relies on: substring search as `str::contains`
    performs it, the framing `writeln!` gives each emitted record, and the
    line splitting `BufRead::lines` applies when text is read back. */
module Text {

  /** Reference definition of "`needle` is a substring of `hay`": some suffix
      of `hay` starts with `needle`. The empty needle occurs everywhere. */
  ghost predicate Occurs(needle: string, hay: string)
  {
    exists i :: 0 <= i <= |hay| && needle <= hay[i..]
  }

  /** `hay.contains(needle)` on strings, by trying each start position. */
  function Contains(hay: string, needle: string): (r: bool)
    ensures r <==> Occurs(needle, hay)
    decreases |hay|
  {
    if needle <= hay then
      assert hay[0..] == hay;
      true
    else if hay == [] then
      false
    else
      var r := Contains(hay[1..], needle);
      assert forall i :: 1 <= i <= |hay| ==> hay[1..][i - 1..] == hay[i..];
      r
  }

  /** Every character of a needle that occurs in `hay` is a character of `hay`. */
  lemma {:induction false} OccursCharsIn(needle: string, hay: string, k: nat)
    requires Occurs(needle, hay)
    requires k < |needle|
    ensures needle[k] in hay
  {
    var i :| 0 <= i <= |hay| && needle <= hay[i..];
    assert hay[i..][k] == needle[k];
    assert hay[i + k] == needle[k];
  }

  /** A needle holding a character that `hay` lacks does not occur in it. */
  lemma AbsentCharNeverOccurs(needle: string, hay: string, k: nat)
    requires k < |needle|
    requires forall i :: 0 <= i < |hay| ==> hay[i] != needle[k]
    ensures !Occurs(needle, hay)
  {
    if Occurs(needle, hay) {
      OccursCharsIn(needle, hay, k);
    }
  }

  /** The text the sink receives for `lines`: each one followed by a single
      newline, in order. */
  function Join(lines: seq<string>): string
  {
    if lines == [] then [] else lines[0] + "\n" + Join(lines[1..])
  }

  lemma {:induction false} JoinAppend(a: seq<string>, b: seq<string>)
    ensures Join(a + b) == Join(a) + Join(b)
    decreases |a|
  {
    if a == [] {
      assert a + b == b;
    } else {
      assert (a + b)[1..] == a[1..] + b;
      JoinAppend(a[1..], b);
    }
  }

  /** The text of one line holds exactly that line and its newline. */
  lemma JoinOne(line: string)
    ensures Join([line]) == line + "\n"
  {
    assert [line][1..] == [];
  }

  /** Writing one more line extends the sink's text by that line and its
      newline. */
  lemma JoinSnoc(prefix: string, lines: seq<string>, line: string)
    ensures prefix + Join(lines) + line + "\n" == prefix + Join(lines + [line])
  {
    JoinAppend(lines, [line]);
    JoinOne(line);
  }

  /** Position of the first newline in `t`, or `|t|` when there is none. */
  function NewlineIndex(t: string): (k: nat)
    ensures k <= |t|
    ensures forall j :: 0 <= j < k ==> t[j] != '\n'
    ensures k < |t| ==> t[k] == '\n'
  {
    if t == [] || t[0] == '\n' then 0 else 1 + NewlineIndex(t[1..])
  }

  predicate EndsWithCr(s: string)
  {
    |s| > 0 && s[|s| - 1] == '\r'
  }

  /** `BufRead::lines` on decoded text: a line ends at each newline, which is
      removed together with one carriage return just before it; a last line
      without a newline is kept as it is; there is no empty last line. */
  function Lines(t: string): seq<string>
    decreases |t|
  {
    if t == [] then []
    else
      var k := NewlineIndex(t);
      if k == |t| then [t]
      else
        var line := t[..k];
        [if EndsWithCr(line) then line[..k - 1] else line] + Lines(t[k + 1..])
  }

  /** Reading back what the sink received gives the emitted lines again,
      provided none contains a newline or ends in a carriage return. */
  lemma {:induction false} LinesOfJoin(lines: seq<string>)
    requires forall l :: l in lines ==> '\n' !in l && !EndsWithCr(l)
    ensures Lines(Join(lines)) == lines
    decreases |lines|
  {
    if lines != [] {
      var l := lines[0];
      assert l in lines;
      FirstLine(l, Join(lines[1..]));
      LinesOfJoin(lines[1..]);
    }
  }

  /** Splitting a line, its newline and further text yields that line
      first, then the lines of the further text. */
  lemma FirstLine(l: string, more: string)
    requires '\n' !in l && !EndsWithCr(l)
    ensures Lines(l + "\n" + more) == [l] + Lines(more)
  {
    var t := l + "\n" + more;
    NewlineIndexAt(t, |l|);
    assert t[..|l|] == l;
    assert t[|l| + 1..] == more;
  }

  lemma {:induction false} NewlineIndexAt(t: string, k: nat)
    requires k < |t| && t[k] == '\n'
    requires forall j :: 0 <= j < k ==> t[j] != '\n'
    ensures NewlineIndex(t) == k
  {
    if k > 0 {
      NewlineIndexAt(t[1..], k - 1);
    }
  }

  /** A line ending in a carriage return does not survive the round trip:
      once the sink adds the newline, `BufRead::lines` strips the carriage
      return with it. */
  lemma CarriageReturnIsLost(l: string)
    requires '\n' !in l && EndsWithCr(l)
    ensures Lines(Join([l])) == [l[..|l| - 1]]
  {
    JoinOne(l);
    NewlineIndexAt(l + "\n", |l|);
    assert (l + "\n")[..|l|] == l;
    assert (l + "\n")[|l| + 1..] == [];
  }
}
