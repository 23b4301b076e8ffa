/** The graph container: an undirected graph over the vertex ids `0 .. vertices-1`,
    stored either as adjacency lists (one sequence of neighbour ids per vertex) or as
    an adjacency matrix (a `vertices × vertices` grid of 0/1 flags). The storage mode is
    a compile-time choice in the original; here it is a constant fixed at construction.
 */
module Graphs {

  /** The two storage layouts. */
  datatype Mode = List | Matrix

  /** The number of vertices the default constructor creates. */
  const DefaultVertices: nat := 10

  /** `rows` is an `n × n` grid whose cells are all 0 or 1. */
  ghost predicate IsGrid(rows: seq<seq<nat>>, n: nat)
  {
    |rows| == n &&
    (forall i :: 0 <= i < n ==> |rows[i]| == n) &&
    (forall i, j :: 0 <= i < n && 0 <= j < |rows[i]| ==> rows[i][j] <= 1)
  }

  /** The grid is symmetric: cell (i, j) equals cell (j, i). */
  ghost predicate IsSymmetric(rows: seq<seq<nat>>)
    requires IsGrid(rows, |rows|)
  {
    forall i, j :: 0 <= i < |rows| && 0 <= j < |rows| ==> rows[i][j] == rows[j][i]
  }

  /** Adjacency lists after inserting the undirected edge (u, v) in list mode:
      `v` is pushed onto row `u`, then `u` is pushed onto row `v`. */
  function ListInsert(rows: seq<seq<nat>>, u: nat, v: nat): (r: seq<seq<nat>>)
    requires u < |rows| && v < |rows|
    ensures |r| == |rows|
    ensures forall w :: 0 <= w < |rows| && w != u && w != v ==> r[w] == rows[w]
  {
    var afterU := rows[u := rows[u] + [v]];
    afterU[v := afterU[v] + [u]]
  }

  /** Adjacency matrix after inserting the undirected edge (u, v) in matrix mode:
      cell (u, v) is set to 1, then cell (v, u) is set to 1. */
  function MatrixInsert(rows: seq<seq<nat>>, u: nat, v: nat): (r: seq<seq<nat>>)
    requires u < |rows| && v < |rows| && v < |rows[u]| && u < |rows[v]|
    ensures |r| == |rows|
    ensures forall w :: 0 <= w < |rows| ==> |r[w]| == |rows[w]|
    ensures forall w :: 0 <= w < |rows| && w != u && w != v ==> r[w] == rows[w]
  {
    var afterU := rows[u := rows[u][v := 1]];
    afterU[v := afterU[v][u := 1]]
  }

  /** List mode appends at the back of both rows; a self-loop puts `u` twice on row `u`. */
  lemma ListInsertAppends(rows: seq<seq<nat>>, u: nat, v: nat)
    requires u < |rows| && v < |rows|
    ensures u != v ==> ListInsert(rows, u, v)[u] == rows[u] + [v]
    ensures u != v ==> ListInsert(rows, u, v)[v] == rows[v] + [u]
    ensures u == v ==> ListInsert(rows, u, v)[u] == rows[u] + [u, u]
  {
  }

  /** List mode keeps the earlier entries of both rows, in order, and does not
      deduplicate: every insertion adds one more occurrence of `v` to row `u`
      (two for a self-loop), whatever the row held before. */
  lemma ListInsertAccumulates(rows: seq<seq<nat>>, u: nat, v: nat)
    requires u < |rows| && v < |rows|
    ensures ListInsert(rows, u, v)[u][..|rows[u]|] == rows[u]
    ensures ListInsert(rows, u, v)[v][..|rows[v]|] == rows[v]
    ensures multiset(ListInsert(rows, u, v)[u])[v] == multiset(rows[u])[v] + (if u == v then 2 else 1)
    ensures multiset(ListInsert(rows, u, v)[v])[u] == multiset(rows[v])[u] + (if u == v then 2 else 1)
  {
    ListInsertAppends(rows, u, v);
    if u == v {
      assert ListInsert(rows, u, v)[u] == rows[u] + [u] + [u];
    }
  }

  /** Matrix mode sets both symmetric cells and touches no other cell. */
  lemma MatrixInsertCells(rows: seq<seq<nat>>, u: nat, v: nat)
    requires u < |rows| && v < |rows| && v < |rows[u]| && u < |rows[v]|
    ensures MatrixInsert(rows, u, v)[u][v] == 1 && MatrixInsert(rows, u, v)[v][u] == 1
    ensures forall i, j :: 0 <= i < |rows| && 0 <= j < |rows[i]| && !(i == u && j == v) && !(i == v && j == u) ==>
              MatrixInsert(rows, u, v)[i][j] == rows[i][j]
  {
  }

  /** Inserting the same edge twice in matrix mode is the same as inserting it once. */
  lemma {:induction false} MatrixInsertIdempotent(rows: seq<seq<nat>>, u: nat, v: nat)
    requires u < |rows| && v < |rows| && v < |rows[u]| && u < |rows[v]|
    ensures MatrixInsert(MatrixInsert(rows, u, v), u, v) == MatrixInsert(rows, u, v)
  {
    var once := MatrixInsert(rows, u, v);
    var twice := MatrixInsert(once, u, v);
    MatrixInsertCells(rows, u, v);
    MatrixInsertCells(once, u, v);
    forall w | 0 <= w < |rows|
      ensures twice[w] == once[w]
    {
      forall j | 0 <= j < |rows[w]|
        ensures twice[w][j] == once[w][j]
      {
      }
    }
  }

  /** Matrix insertion keeps a 0/1 grid a 0/1 grid, and a symmetric grid symmetric. */
  lemma MatrixInsertKeepsGrid(rows: seq<seq<nat>>, n: nat, u: nat, v: nat)
    requires IsGrid(rows, n) && u < n && v < n
    ensures IsGrid(MatrixInsert(rows, u, v), n)
    ensures IsSymmetric(rows) ==> IsSymmetric(MatrixInsert(rows, u, v))
  {
    MatrixInsertCells(rows, u, v);
  }

  class Graph {
    /** Per-vertex data: neighbour ids (list mode) or a row of 0/1 flags (matrix mode). */
    var data: seq<seq<nat>>
    var vertices: nat
    const mode: Mode

    /** One row per vertex. */
    ghost predicate Valid()
      reads this
    {
      |data| == vertices
    }

    /** A fresh graph: `vertices` empty neighbour lists, or a `vertices × vertices`
        grid of zeros. */
    constructor (vertices: nat, mode: Mode)
      ensures Valid() && this.vertices == vertices && this.mode == mode
      ensures mode == List ==> forall i :: 0 <= i < vertices ==> data[i] == []
      ensures mode == Matrix ==> IsGrid(data, vertices) && IsSymmetric(data)
      ensures mode == Matrix ==> forall i, j :: 0 <= i < vertices && 0 <= j < vertices ==> data[i][j] == 0
    {
      this.vertices := vertices;
      this.mode := mode;
      if mode == Matrix {
        data := seq(vertices, _ => seq(vertices, _ => 0));
      } else {
        data := seq(vertices, _ => []);
      }
    }

    /** The default constructor: ten vertices. */
    constructor Default(mode: Mode)
      ensures Valid() && vertices == DefaultVertices && this.mode == mode
      ensures mode == List ==> forall i :: 0 <= i < vertices ==> data[i] == []
      ensures mode == Matrix ==> IsGrid(data, vertices)
      ensures mode == Matrix ==> forall i, j :: 0 <= i < vertices && 0 <= j < vertices ==> data[i][j] == 0
    {
      this.vertices := DefaultVertices;
      this.mode := mode;
      if mode == Matrix {
        data := seq(DefaultVertices, _ => seq(DefaultVertices, _ => 0));
      } else {
        data := seq(DefaultVertices, _ => []);
      }
    }

    /** Copy constructor: same rows, same vertex count, a separate object. */
    constructor Copy(other: Graph)
      ensures data == other.data && vertices == other.vertices && mode == other.mode
      ensures other.Valid() ==> Valid()
    {
      data := other.data;
      vertices := other.vertices;
      mode := other.mode;
    }

    /** Move constructor: takes over the rows; the source is left with no rows and
        a vertex count of 0. */
    constructor Move(other: Graph)
      modifies other
      ensures data == old(other.data) && vertices == old(other.vertices) && mode == other.mode
      ensures old(other.Valid()) ==> Valid()
      ensures other.data == [] && other.vertices == 0 && other.Valid()
    {
      data := other.data;
      vertices := other.vertices;
      mode := other.mode;
      new;
      other.data := [];
      other.vertices := 0;
    }

    /** Copy assignment between graphs of the same storage mode; assigning a graph
        to itself changes nothing. */
    method Assign(other: Graph)
      requires other.mode == mode
      modifies this
      ensures data == old(other.data) && vertices == old(other.vertices)
      ensures old(other.Valid()) ==> Valid()
    {
      if other == this {
        return;
      }
      data := other.data;
      vertices := other.vertices;
    }

    /** Move assignment between graphs of the same storage mode: takes over the rows
        and leaves the source empty, unless source and target are the same graph. */
    method MoveAssign(other: Graph)
      requires other.mode == mode
      modifies this, other
      ensures data == old(other.data) && vertices == old(other.vertices)
      ensures other != this ==> other.data == [] && other.vertices == 0
      ensures old(other.Valid()) ==> Valid()
      ensures other != this ==> other.Valid()
    {
      if other == this {
        return;
      }
      data := other.data;
      vertices := other.vertices;
      other.data := [];
      other.vertices := 0;
    }

    /** Inserts the undirected edge (u, v): pushes onto two rows in list mode, sets two
        cells in matrix mode. The vertex count and all other rows stay as they were. */
    method AddEdge(u: nat, v: nat)
      requires Valid() && u < vertices && v < vertices
      requires mode == Matrix ==> v < |data[u]| && u < |data[v]|
      modifies this
      ensures Valid() && vertices == old(vertices)
      ensures mode == List ==> data == ListInsert(old(data), u, v)
      ensures mode == Matrix ==> data == MatrixInsert(old(data), u, v)
      ensures forall w :: 0 <= w < vertices && w != u && w != v ==> data[w] == old(data[w])
    {
      if mode == Matrix {
        data := data[u := data[u][v := 1]];
        data := data[v := data[v][u := 1]];
      } else {
        data := data[u := data[u] + [v]];
        data := data[v := data[v] + [u]];
      }
    }

    /** Read access to the data of vertex `index`. */
    function Row(index: nat): (row: seq<nat>)
      reads this
      requires Valid() && index < vertices
      ensures row == data[index]
    {
      data[index]
    }

    /** Write access to the data of vertex `index`: the row is replaced as a whole and
        nothing else changes. */
    method SetRow(index: nat, row: seq<nat>)
      requires Valid() && index < vertices
      modifies this
      ensures Valid() && vertices == old(vertices)
      ensures data == old(data)[index := row]
    {
      data := data[index := row];
    }

    /** The vertex count fixed at construction. */
    function GetVertices(): (n: nat)
      reads this
      ensures n == vertices
    {
      vertices
    }
  }

  /** A copy is independent: inserting an edge into the copy leaves the original's
      rows and vertex count as they were. */
  method AddEdgeToCopy(original: Graph, u: nat, v: nat) returns (copy: Graph)
    requires original.Valid() && original.mode == List && u < original.vertices && v < original.vertices
    ensures fresh(copy) && copy.Valid() && copy.mode == List
    ensures copy.data == ListInsert(original.data, u, v) && copy.vertices == original.vertices
    ensures original.data == old(original.data) && original.vertices == old(original.vertices)
  {
    copy := new Graph.Copy(original);
    copy.AddEdge(u, v);
  }
}
