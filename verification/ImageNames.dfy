/** Names of the temporary images beside a mounted image (src/worker/apfs_winfs_worker.cpp): how they
    are made, and how a later worker recognises its predecessors' by a pattern. */
module ImageNames {
  import opened Common
  import opened Text

  predicate Letters(s: string) {
    forall i :: 0 <= i < |s| ==> 'a' <= s[i] <= 'z'
  }

  predicate Hex(s: string) {
    forall i :: 0 <= i < |s| ==> '0' <= s[i] <= '9' || 'a' <= s[i] <= 'f'
  }

  predicate NoDash(s: string) {
    forall i :: 0 <= i < |s| ==> s[i] != '-'
  }

  // Making and recognising names

  const SUFFIX := ".apfs"

  function TempName(image: string, operation: string, pid: string, id: string): string {
    "." + image + "-" + operation + "-" + pid + "-" + id + SUFFIX
  }

  /** What the pattern captures of a name: the operation, the process number and the unique part. */
  datatype Parts = Parts(operation: string, pid: string, id: string)

  /** The pattern, on a folded name. */
  predicate Matches(image: string, name: string, parts: Parts) {
    && parts.operation != [] && Letters(parts.operation)
    && parts.pid != [] && Digits(parts.pid)
    && parts.id != [] && Hex(parts.id)
    && Lower(name) == TempName(Lower(image), parts.operation, parts.pid, parts.id)
  }

  /** Where the first dash is, or the length. */
  function FirstDash(s: string): (k: nat)
    ensures k <= |s| && NoDash(s[..k]) && (k < |s| ==> s[k] == '-')
  {
    if s == [] || s[0] == '-' then 0
    else
      var k := 1 + FirstDash(s[1..]);
      assert forall i :: 1 <= i < k ==> s[i] == s[1..][..k - 1][i - 1];
      k
  }

  lemma {:induction false} FirstDashAfter(word: string, rest: string)
    requires NoDash(word) && (rest == [] || rest[0] == '-')
    ensures FirstDash(word + rest) == |word|
  {
    var s := word + rest;
    assert forall i :: 0 <= i < |word| ==> s[i] == word[i];
    assert rest != [] ==> s[|word|] == '-';
    var k := FirstDash(s);
    assert forall i :: 0 <= i < k ==> s[..k][i] == s[i];
  }

  /** The three parts between dashes; only the last may hold a dash. */
  function Fields(middle: string): Option<Parts> {
    var a := FirstDash(middle);
    if a == |middle| then None
    else
      var rest := middle[a + 1..];
      var b := FirstDash(rest);
      if b == |rest| then None else Some(Parts(middle[..a], rest[..b], rest[b + 1..]))
  }

  lemma FirstDashSplits(word: string, rest: string)
    requires NoDash(word)
    ensures var s := word + ("-" + rest); FirstDash(s) == |word| && s[..|word|] == word && s[|word| + 1..] == rest
  {
    FirstDashAfter(word, "-" + rest);
  }

  lemma FieldsOf(parts: Parts)
    requires NoDash(parts.operation) && NoDash(parts.pid)
    ensures Fields(parts.operation + ("-" + (parts.pid + ("-" + parts.id)))) == Some(parts)
  {
    hide FirstDash;
    FirstDashSplits(parts.operation, parts.pid + ("-" + parts.id));
    FirstDashSplits(parts.pid, parts.id);
  }

  /** The wildcard that lists the candidates, for an image name without `[`, which the wildcard would
      read as the start of a set of characters. */
  predicate InFilter(image: string, name: string) {
    var folded, prefix := Lower(name), "." + Lower(image) + "-";
    && |prefix| + |SUFFIX| <= |folded|
    && folded[..|prefix|] == prefix && folded[|folded| - |SUFFIX|..] == SUFFIX
  }

  function Split(image: string, name: string): Option<Parts> {
    if !InFilter(image, name) then None
    else Fields(Lower(name)[|image| + 2..|name| - |SUFFIX|])
  }

  /** The pattern match: what it captures, if the name matches. */
  function ParseTemp(image: string, name: string): Option<Parts> {
    match Split(image, name)
    case None => None
    case Some(parts) => if Matches(image, name, parts) then Some(parts) else None
  }

  lemma MiddleOf(prefix: string, middle: string, folded: string)
    requires folded == prefix + middle + SUFFIX
    ensures |folded| == |prefix| + |middle| + |SUFFIX| && folded[..|prefix|] == prefix
    ensures folded[|folded| - |SUFFIX|..] == SUFFIX && folded[|prefix|..|folded| - |SUFFIX|] == middle
  {
  }

  lemma TempNameMiddle(image: string, parts: Parts)
    ensures TempName(image, parts.operation, parts.pid, parts.id) ==
            ("." + image + "-") + (parts.operation + ("-" + (parts.pid + ("-" + parts.id)))) + SUFFIX
  {
    var a := "." + image + "-" + parts.operation + "-" + parts.pid + "-" + parts.id;
    var b := ("." + image + "-") + (parts.operation + ("-" + (parts.pid + ("-" + parts.id))));
    assert a == b;
  }

  /** The pattern has at most one way to match, and splitting at the dashes finds it. */
  lemma ParseFinds(image: string, name: string, parts: Parts)
    requires Matches(image, name, parts)
    ensures ParseTemp(image, name) == Some(parts)
  {
    hide TempName, Lower, Fields;
    TempNameMiddle(Lower(image), parts);
    var middle := parts.operation + ("-" + (parts.pid + ("-" + parts.id)));
    MiddleOf("." + Lower(image) + "-", middle, Lower(name));
    FieldsOf(parts);
  }

  /** What the pattern takes and captures, in any case of the name: a dot, the image, a word of letters,
      a number and a hexadecimal word between dashes, and the suffix. */
  lemma PatternMeans(image: string, name: string, parts: Parts)
    ensures ParseTemp(image, name) == Some(parts) <==>
            && |parts.operation| > 0 && (forall i :: 0 <= i < |parts.operation| ==> 'a' <= parts.operation[i] <= 'z')
            && |parts.pid| > 0 && (forall i :: 0 <= i < |parts.pid| ==> '0' <= parts.pid[i] <= '9')
            && |parts.id| > 0 && (forall i :: 0 <= i < |parts.id| ==> '0' <= parts.id[i] <= '9' || 'a' <= parts.id[i] <= 'f')
            && Lower(name) == "." + Lower(image) + "-" + parts.operation + "-" + parts.pid + "-" + parts.id + ".apfs"
  {
    hide Lower, Split;
    if Matches(image, name, parts) {
      ParseFinds(image, name, parts);
    }
  }

  /** A name as it is on the disk. */
  lemma TempNameSpelled()
    ensures TempName("d.img", "write", Decimal(42), "3f") == ".d.img-write-42-3f.apfs"
  {
    assert Decimal(4) == "4" && Decimal(42) == "42";
  }

  /** A name that a worker makes is recognised with its own operation, process and unique part. */
  lemma TempNameParses(image: string, operation: string, pid: nat, id: string)
    requires operation != [] && Letters(operation) && id != [] && Hex(id)
    ensures Digits(Decimal(pid)) && Number(Decimal(pid)) == pid
    ensures ParseTemp(image, TempName(image, operation, Decimal(pid), id)) == Some(Parts(operation, Decimal(pid), id))
  {
    DecimalReadsBack(pid);
    LowerOfTempName(image, operation, Decimal(pid), id);
    ParseFinds(image, TempName(image, operation, Decimal(pid), id), Parts(operation, Decimal(pid), id));
  }

  lemma LowerOfTempName(image: string, operation: string, pid: string, id: string)
    requires Letters(operation) && Digits(pid) && Hex(id)
    ensures Lower(TempName(image, operation, pid, id)) == TempName(Lower(image), operation, pid, id)
  {
    LowerConcat(".", image);
    LowerConcat("." + image, "-");
    LowerConcat("." + image + "-", operation);
    LowerConcat("." + image + "-" + operation, "-");
    LowerConcat("." + image + "-" + operation + "-", pid);
    LowerConcat("." + image + "-" + operation + "-" + pid, "-");
    LowerConcat("." + image + "-" + operation + "-" + pid + "-", id);
    LowerConcat("." + image + "-" + operation + "-" + pid + "-" + id, SUFFIX);
    assert Lower(operation) == operation && Lower(pid) == pid && Lower(id) == id;
    assert Lower(".") == "." && Lower("-") == "-" && Lower(SUFFIX) == SUFFIX;
  }

  // Whose name it is

  lemma LastWord(x: string, w: string, x': string, w': string)
    requires x + "-" + w == x' + "-" + w' && NoDash(w) && NoDash(w')
    ensures x == x' && w == w'
  {
    var s, s' := x + "-" + w, x' + "-" + w';
    assert s[|x|] == '-' && s'[|x'|] == '-';
    assert forall k :: |x| < k < |s| ==> s[k] == w[k - |x| - 1];
    assert forall k :: |x'| < k < |s'| ==> s'[k] == w'[k - |x'| - 1];
    assert |x| == |x'| && |w| == |w'|;
    assert x == s[..|x|] == s'[..|x|] == x';
    assert w == s[|x| + 1..] == s'[|x| + 1..] == w';
  }

  lemma NoDashInWords(parts: Parts)
    requires Letters(parts.operation) && Digits(parts.pid) && Hex(parts.id)
    ensures NoDash(parts.operation) && NoDash(parts.pid) && NoDash(parts.id + SUFFIX)
  {
  }

  /** No temporary image of one image is ever taken for a temporary of another, whatever dashes the
      two names hold. */
  lemma OwnersAreDistinct(image: string, image': string, name: string)
    requires ParseTemp(image, name).Some? && ParseTemp(image', name).Some?
    ensures Lower(image) == Lower(image') && ParseTemp(image, name) == ParseTemp(image', name)
  {
    hide Lower, Split;
    var p, p' := Split(image, name).value, Split(image', name).value;
    var i, i' := Lower(image), Lower(image');
    NoDashInWords(p);
    NoDashInWords(p');
    var a, a' := "." + i, "." + i';
    var b, b' := a + "-" + p.operation, a' + "-" + p'.operation;
    var c, c' := b + "-" + p.pid, b' + "-" + p'.pid;
    Regroup(c + "-", p.id, SUFFIX);
    Regroup(c' + "-", p'.id, SUFFIX);
    LastWord(c, p.id + SUFFIX, c', p'.id + SUFFIX);
    LastWord(b, p.pid, b', p'.pid);
    LastWord(a, p.operation, a', p'.operation);
    assert i == a[1..] && i' == a'[1..];
    assert p.id == (p.id + SUFFIX)[..|p.id|];
  }

  // The backup test

  const BACKUP := "backup"
  const MARK := "-backup-"

  predicate At(s: string, t: string, i: int): (at: bool)
    ensures at ==> 0 <= i <= |s| - |t|
  {
    0 <= i <= |s| - |t| && s[i..i + |t|] == t
  }

  predicate Contains(s: string, t: string) {
    exists i {:trigger At(s, t, i)} :: 0 <= i <= |s| && At(s, t, i)
  }

  /** The test that recovery uses to tell backups from images that were still being written. */
  predicate LooksLikeBackup(name: string) {
    Contains(Lower(name), MARK)
  }

  predicate HasMark(image: string) {
    Contains("." + Lower(image) + "-", MARK)
  }

  /** A dash-free word between two dashes is one of the words, or lies before them. */
  lemma MarkIsAWord(p: string, operation: string, pid: string, last: string, i: int)
    requires NoDash(operation) && NoDash(pid) && NoDash(last)
    requires At(p + "-" + operation + "-" + pid + "-" + last, MARK, i)
    ensures At(p + "-", MARK, i) || operation == BACKUP || pid == BACKUP
  {
    var s := p + "-" + operation + "-" + pid + "-" + last;
    var d1 := |p|;
    var d2 := d1 + 1 + |operation|;
    var d3 := d2 + 1 + |pid|;
    assert s[d1] == '-' && s[d2] == '-' && s[d3] == '-';
    assert s[d1 + 1..d2] == operation && s[d2 + 1..d3] == pid && s[d3 + 1..] == last;
    DashesOf(s, d1, d2, d3);
    MarkDashes(s, i);
    if i + 7 <= d1 {
      assert (p + "-")[i..i + 8] == s[i..i + 8];
    }
  }

  lemma MarkDashes(s: string, i: int)
    requires At(s, MARK, i)
    ensures s[i] == '-' && s[i + 7] == '-' && s[i + 1..i + 7] == BACKUP
    ensures forall k {:trigger s[k]} :: i < k < i + 7 ==> s[k] != '-'
  {
    var m := s[i..i + 8];
    assert forall k {:trigger s[k]} :: i <= k < i + 8 ==> s[k] == m[k - i];
    var word := s[i + 1..i + 7];
    assert forall k :: 0 <= k < 6 ==> word[k] == s[i + 1 + k];
    assert word == [m[1], m[2], m[3], m[4], m[5], m[6]];
  }

  lemma DashesOf(s: string, d1: nat, d2: nat, d3: nat)
    requires d1 < d2 < d3 < |s|
    requires NoDash(s[d1 + 1..d2]) && NoDash(s[d2 + 1..d3]) && NoDash(s[d3 + 1..])
    ensures forall k {:trigger s[k]} :: d1 < k < |s| && s[k] == '-' ==> k == d2 || k == d3
  {
    assert forall k {:trigger s[k]} :: d1 < k < d2 ==> s[d1 + 1..d2][k - d1 - 1] == s[k];
    assert forall k {:trigger s[k]} :: d2 < k < d3 ==> s[d2 + 1..d3][k - d2 - 1] == s[k];
    assert forall k {:trigger s[k]} :: d3 < k < |s| ==> s[d3 + 1..][k - d3 - 1] == s[k];
  }

  lemma AtPrefix(p: string, rest: string, t: string, i: int)
    requires At(p, t, i)
    ensures At(p + rest, t, i)
  {
    assert (p + rest)[i..i + |t|] == p[i..i + |t|];
  }

  lemma MarkAmongWords(p: string, operation: string, pid: string, last: string)
    requires NoDash(operation) && NoDash(pid) && NoDash(last) && pid != BACKUP
    ensures Contains(p + "-" + operation + "-" + pid + "-" + last, MARK) <==>
            operation == BACKUP || Contains(p + "-", MARK)
  {
    hide At, NoDash;
    var s := p + "-" + operation + "-" + pid + "-" + last;
    if i :| 0 <= i <= |s| && At(s, MARK, i) {
      MarkIsAWord(p, operation, pid, last, i);
    }
    var rest := operation + "-" + pid + "-" + last;
    assert p + "-" + rest == s;
    if j :| 0 <= j <= |p| + 1 && At(p + "-", MARK, j) {
      AtPrefix(p + "-", rest, MARK, j);
    }
    if operation == BACKUP {
      BackupIsMarked(p, pid + "-" + last);
      assert p + "-" + BACKUP + "-" + (pid + "-" + last) == s;
    }
  }

  /** The test tells backups apart exactly when the image's own name does not already carry the mark:
      with such a name every temporary of the image looks like a backup. */
  lemma BackupTest(image: string, name: string)
    requires ParseTemp(image, name).Some?
    ensures LooksLikeBackup(name) <==> ParseTemp(image, name).value.operation == BACKUP || HasMark(image)
  {
    hide Lower, Split, Contains;
    var parts := Split(image, name).value;
    var p := "." + Lower(image);
    NoDashInWords(parts);
    Regroup(p + "-" + parts.operation + "-" + parts.pid + "-", parts.id, SUFFIX);
    assert parts.pid[0] != BACKUP[0];
    MarkAmongWords(p, parts.operation, parts.pid, parts.id + SUFFIX);
  }

  lemma BackupIsMarked(p: string, rest: string)
    ensures At(p + "-" + BACKUP + "-" + rest, MARK, |p|)
  {
    assert "-" + BACKUP + "-" == MARK;
    assert p + "-" + BACKUP + "-" + rest == p + MARK + rest;
  }

  /** The failing family is not empty: under such a name, an image whose writing was interrupted
      passes the backup test. */
  lemma MarkedImage(before: string, after: string, pid: nat, id: string)
    requires id != [] && Hex(id)
    ensures var image := before + MARK + after;
            var name := TempName(image, "write", Decimal(pid), id);
            ParseTemp(image, name).Some? && LooksLikeBackup(name)
  {
    hide Lower, At, TempName, Split;
    var image := before + MARK + after;
    TempNameParses(image, "write", pid, id);
    LowerConcat(before + MARK, after);
    LowerConcat(before, MARK);
    LowerOfMark();
    var p, q := "." + Lower(before), Lower(after) + "-";
    assert "." + Lower(image) + "-" == p + MARK + q;
    AtMiddle(p, MARK, q);
    BackupTest(image, TempName(image, "write", Decimal(pid), id));
  }

  lemma LowerOfMark()
    ensures Lower(MARK) == MARK
  {
  }

  lemma AtMiddle(p: string, t: string, q: string)
    ensures At(p + t + q, t, |p|)
  {
    assert (p + t + q)[|p|..|p| + |t|] == t;
  }
}
