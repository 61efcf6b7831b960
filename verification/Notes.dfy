/**
  The notes of an error, and how they are put in order before they are shown.
 */
module Notes {

  import opened Words
  import Search
  import opened StableSort

  datatype Position = Position(offset: u64, line: u64, col: u64)

  datatype Source = Source(file: Search.text, start: Position, end: Position)

  datatype NoteKind = Info | Warning | Error | InfoLine | WarningLine | ErrorLine

  datatype Note = Note(message: seq<byte>, source: Source, kind: NoteKind)

  predicate ByCol(a: Note, b: Note) {
    a.source.start.col < b.source.start.col
  }

  predicate ByLine(a: Note, b: Note) {
    a.source.start.line < b.source.start.line
  }

  predicate ByFile(a: Note, b: Note) {
    Search.Comparison(a.source.file, b.source.file) < 0
  }

  /** Top to bottom and left to right, file by file. */
  ghost predicate Before(a: Note, b: Note) {
    var p, q := a.source.start, b.source.start;
    match Search.Lexicographic(a.source.file, b.source.file)
    case Less => true
    case Greater => false
    case Equal => p.line < q.line || (p.line == q.line && p.col < q.col)
  }

  /** What `ByFile` is for: the lexicographic order of the names. */
  ghost predicate FileBefore(a: Note, b: Note) {
    Search.Lexicographic(a.source.file, b.source.file) == Search.Less
  }

  /** No name begins with another that is shorter by a number of bytes that `compare` gets wrong. */
  ghost predicate FilesCompare(notes: seq<Note>) {
    forall a, b :: a in notes && b in notes ==> Comparable(a.source.file, b.source.file)
  }

  predicate Comparable(a: Search.text, b: Search.text) {
    Search.OneIsPrefix(a, b) ==> Search.DifferenceKeepsSign(|a| - |b|)
  }

  class Base {
    var notes: seq<Note>

    /** Three stable sorts, from the least significant key to the most. */
    method SortNotes()
      requires FilesCompare(notes)
      modifies this
      ensures IsStableSort(Before, old(notes), notes)
      ensures multiset(notes) == multiset(old(notes))
    {
      ghost var was := notes;
      notes := Sorted(ByCol, notes);
      ghost var byCol := notes;
      notes := Sorted(ByLine, notes);
      ghost var byLine := notes;
      notes := Sorted(ByFile, notes);
      KeysAreOrders();
      SortedIsStableSort(ByCol, was);
      SortedIsStableSort(ByLine, byCol);
      StableSortKeepsElements(ByCol, was, byCol);
      StableSortKeepsElements(ByLine, byCol, byLine);
      SortedByFile(was, byLine);
      ThreeSortsAreOne(was, byCol, byLine, notes);
    }
  }

  /** Among names that compare, the comparison is the lexicographic order. */
  lemma ByFileAgrees(s: seq<Note>, t: seq<Note>)
    requires FilesCompare(s) && multiset(t) == multiset(s)
    ensures AgreeOn(ByFile, FileBefore, t) && AgreeOn(FileBefore, ByFile, t)
  {
    forall i, j | 0 <= i < |t| && 0 <= j < |t|
      ensures ByFile(t[i], t[j]) <==> FileBefore(t[i], t[j])
    {
      assert t[i] in multiset(s) && t[j] in multiset(s);
      Search.CompareIsLexicographicIffDifferenceFits(t[i].source.file, t[j].source.file);
      assert Comparable(t[i].source.file, t[j].source.file);
    }
  }

  lemma SortedByFile(s: seq<Note>, t: seq<Note>)
    requires FilesCompare(s) && multiset(t) == multiset(s)
    ensures IsStableSort(ByFile, t, Sorted(ByFile, t))
  {
    KeysAreOrders();
    ByFileAgrees(s, t);
    SortedAgrees(ByFile, FileBefore, t);
    SortedIsStableSort(FileBefore, t);
    SameOrderSameSort(FileBefore, ByFile, t, Sorted(ByFile, t));
  }

  lemma KeysAreOrders()
    ensures IsOrder(ByCol) && IsOrder(ByLine) && IsOrder(FileBefore)
  {
    forall a: Note, b: Note, c: Note
      ensures FileBefore(a, b) ==> !FileBefore(b, a)
      ensures FileBefore(a, c) ==> FileBefore(a, b) || FileBefore(b, c)
    {
      Search.LessIsOrder(a.source.file, b.source.file, c.source.file);
    }
  }

  lemma BeforeIsLexicographic(a: Note, b: Note)
    ensures Before(a, b) <==> Lexicographic(FileBefore, Lexicographic(ByLine, ByCol))(a, b)
  {
    var inner := Lexicographic(ByLine, ByCol);
    LexicographicAt(ByLine, ByCol, a, b);
    LexicographicAt(FileBefore, inner, a, b);
    Search.LexicographicIsAntisymmetric(a.source.file, b.source.file);
    Search.LexicographicIsAntisymmetric(b.source.file, a.source.file);
  }

  lemma BeforeAgrees(s: seq<Note>)
    ensures var before := Lexicographic(FileBefore, Lexicographic(ByLine, ByCol));
            AgreeOn(before, Before, s) && AgreeOn(Before, before, s) && IsOrder(before)
  {
    KeysAreOrders();
    LexicographicIsOrder(ByLine, ByCol);
    LexicographicIsOrder(FileBefore, Lexicographic(ByLine, ByCol));
    var before := Lexicographic(FileBefore, Lexicographic(ByLine, ByCol));
    forall i, j | 0 <= i < |s| && 0 <= j < |s|
      ensures before(s[i], s[j]) <==> Before(s[i], s[j])
    {
      BeforeIsLexicographic(s[i], s[j]);
    }
  }

  /** Whichever way the three stable sorts are done, they put the notes in order of file, line and column. */
  lemma ThreeSortsAreOne(s: seq<Note>, t: seq<Note>, u: seq<Note>, v: seq<Note>)
    requires FilesCompare(s)
    requires IsStableSort(ByCol, s, t) && IsStableSort(ByLine, t, u) && IsStableSort(ByFile, u, v)
    ensures IsStableSort(Before, s, v) && multiset(v) == multiset(s)
  {
    KeysAreOrders();
    StableSortKeepsElements(ByCol, s, t);
    StableSortKeepsElements(ByLine, t, u);
    ByFileAgrees(s, u);
    SameOrderSameSort(ByFile, FileBefore, u, v);
    var inner := Lexicographic(ByLine, ByCol);
    SortingTwice(ByLine, ByCol, s, t, u);
    LexicographicIsOrder(ByLine, ByCol);
    SortingTwice(FileBefore, inner, s, u, v);
    BeforeAgrees(s);
    SameOrderSameSort(Lexicographic(FileBefore, inner), Before, s, v);
    StableSortKeepsElements(Before, s, v);
  }

  /** Files ascend, within a file the lines where notes start, and within a line the columns. */
  lemma SortedNotesAscend(s: seq<Note>, t: seq<Note>, i: nat, j: nat)
    requires IsStableSort(Before, s, t) && i < j < |t|
    ensures var a, b := t[i].source, t[j].source;
            && Search.Lexicographic(a.file, b.file) != Search.Greater
            && (a.file == b.file ==> a.start.line <= b.start.line)
            && (a.file == b.file && a.start.line == b.start.line ==> a.start.col <= b.start.col)
  {
    var p :| Arranges(Before, s, t, p);
    assert Precedes(Before, s, p[i], p[j]);
    Search.LexicographicIsAntisymmetric(t[i].source.file, t[j].source.file);
    Search.LexicographicIsAntisymmetric(t[j].source.file, t[i].source.file);
  }

  /** The order of the notes is therefore determined: no other stable sort of them exists. */
  lemma SortedNotesAreUnique(s: seq<Note>, t: seq<Note>, u: seq<Note>)
    requires IsStableSort(Before, s, t) && IsStableSort(Before, s, u)
    ensures t == u
  {
    BeforeAgrees(s);
    var before := Lexicographic(FileBefore, Lexicographic(ByLine, ByCol));
    SameOrderSameSort(Before, before, s, t);
    SameOrderSameSort(Before, before, s, u);
    StableSortIsUnique(before, s, t, u);
  }
}
