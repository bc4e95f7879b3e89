/**
 * The flushing rules of the import processors (AbstractProcessor): which
 * draft columns become table columns, which draft fields overwrite a node
 * or an edge, and which defaults apply when a draft leaves a field unset.
 */
module Processor {
  import opened Wrappers
  import opened Numbers
  import opened Elements

  // ----- Columns ---------------------------------------------------------------

  /** Where a column comes from. */
  datatype Origin = Data | Property

  /** A column an import declares. */
  datatype ColumnDraft = ColumnDraft(id: string, title: string, typeClass: string, defaultValue: Option<Value>)

  /** A column of an attribute table. */
  datatype Column = Column(id: string, title: string, typeClass: string, origin: Origin, defaultValue: Option<Value>, indexed: bool)

  /** The column flushColumns creates for a draft: a data column, indexed. */
  function FromDraft(col: ColumnDraft): Column
  {
    Column(col.id, col.title, col.typeClass, Data, col.defaultValue, true)
  }

  predicate HasId(columns: seq<Column>, id: string)
  {
    exists i :: 0 <= i < |columns| && columns[i].id == id
  }

  /**
   * The columns after the drafts are flushed in order: a draft is appended
   * only when no column, old or just added, has its id.
   */
  function AddMissing(columns: seq<Column>, drafts: seq<ColumnDraft>): (r: seq<Column>)
    ensures |columns| <= |r| && r[..|columns|] == columns
    decreases |drafts|
  {
    if drafts == [] then columns
    else if HasId(columns, drafts[0].id) then AddMissing(columns, drafts[1..])
    else AddMissing(columns + [FromDraft(drafts[0])], drafts[1..])
  }

  /** After flushing, every draft's id names a column. */
  lemma {:induction false} AddMissingCovers(columns: seq<Column>, drafts: seq<ColumnDraft>, j: nat)
    requires j < |drafts|
    ensures HasId(AddMissing(columns, drafts), drafts[j].id)
    decreases |drafts|
  {
    var r := AddMissing(columns, drafts);
    if j == 0 {
      if HasId(columns, drafts[0].id) {
        var i :| 0 <= i < |columns| && columns[i].id == drafts[0].id;
        assert r[..|columns|][i] == columns[i];
      } else {
        var c := columns + [FromDraft(drafts[0])];
        assert r[..|c|] == c;
        assert r[|columns|] == c[|columns|];
      }
    } else {
      if HasId(columns, drafts[0].id) {
        AddMissingCovers(columns, drafts[1..], j - 1);
      } else {
        AddMissingCovers(columns + [FromDraft(drafts[0])], drafts[1..], j - 1);
      }
    }
  }

  /** Each added column is the column of a draft whose id was missing before: no id is added twice. */
  lemma {:induction false} AddMissingAdds(columns: seq<Column>, drafts: seq<ColumnDraft>, i: nat)
    requires |columns| <= i < |AddMissing(columns, drafts)|
    ensures var c := AddMissing(columns, drafts)[i];
      !HasId(columns, c.id) && exists j :: 0 <= j < |drafts| && c == FromDraft(drafts[j])
    ensures forall k :: |columns| <= k < |AddMissing(columns, drafts)| && k != i ==>
      AddMissing(columns, drafts)[k].id != AddMissing(columns, drafts)[i].id
    decreases |drafts|
  {
    var r := AddMissing(columns, drafts);
    var rest := drafts[1..];
    if HasId(columns, drafts[0].id) {
      AddMissingAdds(columns, rest, i);
      var j :| 0 <= j < |rest| && r[i] == FromDraft(rest[j]);
      assert rest[j] == drafts[j + 1];
    } else {
      var c := columns + [FromDraft(drafts[0])];
      assert r[..|c|] == c;
      if i == |columns| {
        assert r[i] == FromDraft(drafts[0]);
        forall k | |columns| <= k < |r| && k != i ensures r[k].id != r[i].id {
          AddMissingAdds(c, rest, k);
          assert c[|columns|].id == r[i].id;
        }
      } else {
        AddMissingAdds(c, rest, i);
        var j :| 0 <= j < |rest| && r[i] == FromDraft(rest[j]);
        assert rest[j] == drafts[j + 1];
        forall k | |columns| <= k < |r| && k != i ensures r[k].id != r[i].id {
          if k == |columns| {
            assert r[k] == c[|columns|];
          } else {
            AddMissingAdds(c, rest, k);
          }
        }
      }
    }
  }

  /** Columns whose ids are all present already are left exactly as they are. */
  lemma {:induction false} AddMissingNone(columns: seq<Column>, drafts: seq<ColumnDraft>)
    requires forall j :: 0 <= j < |drafts| ==> HasId(columns, drafts[j].id)
    ensures AddMissing(columns, drafts) == columns
    decreases |drafts|
  {
    if drafts != [] {
      assert HasId(columns, drafts[0].id);
      forall j | 0 <= j < |drafts[1..]| ensures HasId(columns, drafts[1..][j].id) {
        assert drafts[1..][j] == drafts[j + 1];
      }
      AddMissingNone(columns, drafts[1..]);
    }
  }

  /** Flushing twice adds nothing the first flush did not. */
  lemma AddMissingIdempotent(columns: seq<Column>, drafts: seq<ColumnDraft>)
    ensures AddMissing(AddMissing(columns, drafts), drafts) == AddMissing(columns, drafts)
  {
    forall j | 0 <= j < |drafts| ensures HasId(AddMissing(columns, drafts), drafts[j].id) {
      AddMissingCovers(columns, drafts, j);
    }
    AddMissingNone(AddMissing(columns, drafts), drafts);
  }

  /** An attribute table, as its list of columns. */
  class Table {
    var columns: seq<Column>

    function HasColumn(id: string): (r: bool)
      reads this
      ensures r <==> HasId(columns, id)
    {
      exists i :: 0 <= i < |columns| && columns[i].id == id
    }

    method AddColumn(col: Column)
      modifies this
      ensures columns == old(columns) + [col]
    {
      columns := columns + [col];
    }
  }

  // ----- Attribute values ------------------------------------------------------

  predicate IsColumn(cols: seq<ColumnDraft>, id: string)
  {
    exists i :: 0 <= i < |cols| && cols[i].id == id
  }

  /** The attributes after writing, column by column, every value the draft holds. */
  function WriteValues(attributes: map<string, Value>, cols: seq<ColumnDraft>, values: map<string, Value>): (r: map<string, Value>)
    decreases |cols|
  {
    if cols == [] then attributes
    else
      var last := cols[|cols| - 1];
      var a := WriteValues(attributes, cols[..|cols| - 1], values);
      if last.id in values then a[last.id := values[last.id]] else a
  }

  /**
   * A column the draft has a value for gets that value; every other
   * attribute keeps its previous value, or stays absent.
   */
  lemma {:induction false} WrittenValues(attributes: map<string, Value>, cols: seq<ColumnDraft>, values: map<string, Value>, id: string)
    ensures var r := WriteValues(attributes, cols, values);
      (IsColumn(cols, id) && id in values ==> id in r && r[id] == values[id]) &&
      (!(IsColumn(cols, id) && id in values) ==> (id in r <==> id in attributes) && (id in r ==> r[id] == attributes[id]))
    decreases |cols|
  {
    if cols != [] {
      var init := cols[..|cols| - 1];
      WrittenValues(attributes, init, values, id);
      if IsColumn(cols, id) && !IsColumn(init, id) {
        var i :| 0 <= i < |cols| && cols[i].id == id;
      }
      if IsColumn(init, id) {
        var i :| 0 <= i < |init| && init[i].id == id;
        assert cols[i] == init[i];
      }
    }
  }

  // ----- Drafts ------------------------------------------------------------------

  /** A node as the import drafted it; None stands for an unset (null) field. */
  datatype NodeDraft = NodeDraft(color: Option<Color>, labelText: Option<string>, labelVisible: bool,
                                 labelColor: Option<Color>, labelSize: real, x: real, y: real, z: real,
                                 size: Double, values: map<string, Value>)

  /** An edge as the import drafted it. */
  datatype EdgeDraft = EdgeDraft(color: Option<Color>, labelText: Option<string>, labelVisible: bool,
                                 labelColor: Option<Color>, labelSize: real, values: map<string, Value>)

  /** The node size flushed: the draft's, unless it is 0 or NaN, in which case 10. */
  function FlushedSize(size: Double): (r: Double)
    ensures size != Finite(0.0) && size != NaN ==> r == size
    ensures size == Finite(0.0) || size == NaN ==> r == Finite(10.0)
    ensures r != NaN && r != Finite(0.0)
  {
    if size != Finite(0.0) && size != NaN then size else Finite(10.0)
  }

  /** The columns of the import container. */
  datatype Container = Container(nodeColumns: seq<ColumnDraft>, edgeColumns: seq<ColumnDraft>)

  class AbstractProcessor {
    var container: Container
    var nodeTable: Table
    var edgeTable: Table

    /** A processor over the attribute model's node and edge tables, before any container is set. */
    constructor(nodes: Table, edges: Table)
      ensures nodeTable == nodes && edgeTable == edges
      ensures container == Container([], [])
    {
      nodeTable := nodes;
      edgeTable := edges;
      container := Container([], []);
    }

    /** Adds a node table column for every missing draft node column, then the same for edges. */
    method FlushColumns()
      requires nodeTable != edgeTable
      modifies nodeTable, edgeTable
      ensures nodeTable.columns == AddMissing(old(nodeTable.columns), container.nodeColumns)
      ensures edgeTable.columns == AddMissing(old(edgeTable.columns), container.edgeColumns)
    {
      FlushTable(nodeTable, container.nodeColumns);
      FlushTable(edgeTable, container.edgeColumns);
    }

    /** The loop of flushColumns over one table. */
    static method FlushTable(table: Table, drafts: seq<ColumnDraft>)
      modifies table
      ensures table.columns == AddMissing(old(table.columns), drafts)
    {
      ghost var c0 := table.columns;
      for i := 0 to |drafts|
        invariant AddMissing(table.columns, drafts[i..]) == AddMissing(c0, drafts)
      {
        var col := drafts[i];
        assert drafts[i..][1..] == drafts[i + 1..];
        if !table.HasColumn(col.id) {
          table.AddColumn(FromDraft(col));
        }
      }
    }

    /**
     * Copies a node draft onto a node: colour and label only when set,
     * the label properties only when the node has text properties, the
     * position always, the size with its default, and the attributes.
     */
    method FlushToNode(draft: NodeDraft, node: Node)
      modifies node`r, node`g, node`b, node`alpha, node`labelText, node`x, node`y, node`z, node`size, node`attributes
      modifies node.textProperties
      ensures draft.color.Some? ==> node.r == draft.color.value.r && node.g == draft.color.value.g &&
                                    node.b == draft.color.value.b && node.alpha == draft.color.value.alpha
      ensures draft.color.None? ==> node.r == old(node.r) && node.g == old(node.g) && node.b == old(node.b) && node.alpha == old(node.alpha)
      ensures node.labelText == (if draft.labelText.Some? then draft.labelText else old(node.labelText))
      ensures node.x == draft.x && node.y == draft.y && node.z == draft.z
      ensures node.size == FlushedSize(draft.size)
      ensures node.textProperties == old(node.textProperties)
      ensures node.textProperties != null ==> LabelFlushed(node.textProperties, draft.labelVisible, draft.labelColor, draft.labelSize)
      ensures node.attributes == WriteValues(old(node.attributes), container.nodeColumns, draft.values)
    {
      if draft.color.Some? {
        var c := draft.color.value;
        node.r, node.g, node.b, node.alpha := c.r, c.g, c.b, c.alpha;
      }
      if draft.labelText.Some? {
        node.labelText := draft.labelText;
      }
      node.x := draft.x;
      node.y := draft.y;
      node.z := draft.z;
      node.size := FlushedSize(draft.size);
      FlushLabel(node.textProperties, draft.labelVisible, draft.labelColor, draft.labelSize);
      FlushToNodeAttributes(draft, node);
    }

    /** The label's visibility, its colour when set, and its size unless it is -1. */
    static twostate predicate LabelFlushed(t: TextProperties, visible: bool, color: Option<Color>, size: real)
      reads t
    {
      && t.visible == visible
      && (color.Some? ==> t.r == color.value.r && t.g == color.value.g && t.b == color.value.b && t.alpha == color.value.alpha)
      && (color.None? ==> t.r == old(t.r) && t.g == old(t.g) && t.b == old(t.b) && t.alpha == old(t.alpha))
      && t.size == (if size != -1.0 then size else old(t.size))
      && t.text == old(t.text)
    }

    /** The text-property part of flushToNode and flushToEdge; nothing happens without text properties. */
    static method FlushLabel(t: TextProperties?, visible: bool, color: Option<Color>, size: real)
      modifies t
      ensures t != null ==> LabelFlushed(t, visible, color, size)
    {
      if t != null {
        t.visible := visible;
      }
      if color.Some? && t != null {
        var c := color.value;
        t.r, t.g, t.b, t.alpha := c.r, c.g, c.b, c.alpha;
      }
      if size != -1.0 && t != null {
        t.size := size;
      }
    }

    /** Writes every value the draft holds for a node column. */
    method FlushToNodeAttributes(draft: NodeDraft, node: Node)
      modifies node`attributes
      ensures node.attributes == WriteValues(old(node.attributes), container.nodeColumns, draft.values)
    {
      node.attributes := FlushValues(node.attributes, container.nodeColumns, draft.values);
    }

    /** The loop of flushToNodeAttributes and flushToEdgeAttributes, on the attribute map. */
    static method FlushValues(attributes: map<string, Value>, cols: seq<ColumnDraft>, values: map<string, Value>)
      returns (r: map<string, Value>)
      ensures r == WriteValues(attributes, cols, values)
    {
      r := attributes;
      for i := 0 to |cols|
        invariant r == WriteValues(attributes, cols[..i], values)
      {
        assert cols[..i + 1][..i] == cols[..i];
        var col := cols[i];
        if col.id in values {
          r := r[col.id := values[col.id]];
        }
      }
      assert cols[..|cols|] == cols;
    }

    /**
     * Copies an edge draft onto an edge: the colour, or -1 for red, green
     * and blue when the draft has none; the label when set; the label
     * properties; the attributes.
     */
    method FlushToEdge(draft: EdgeDraft, edge: Edge)
      modifies edge`r, edge`g, edge`b, edge`alpha, edge`labelText, edge`attributes
      modifies edge.textProperties
      ensures draft.color.Some? ==> edge.r == draft.color.value.r && edge.g == draft.color.value.g &&
                                    edge.b == draft.color.value.b && edge.alpha == draft.color.value.alpha
      ensures draft.color.None? ==> edge.r == -1.0 && edge.g == -1.0 && edge.b == -1.0 && edge.alpha == old(edge.alpha)
      ensures edge.labelText == (if draft.labelText.Some? then draft.labelText else old(edge.labelText))
      ensures edge.textProperties == old(edge.textProperties)
      ensures edge.textProperties != null ==> LabelFlushed(edge.textProperties, draft.labelVisible, draft.labelColor, draft.labelSize)
      ensures edge.attributes == WriteValues(old(edge.attributes), container.edgeColumns, draft.values)
    {
      if draft.color.Some? {
        var c := draft.color.value;
        edge.r, edge.g, edge.b, edge.alpha := c.r, c.g, c.b, c.alpha;
      } else {
        edge.r := -1.0;
        edge.g := -1.0;
        edge.b := -1.0;
      }
      if draft.labelText.Some? {
        edge.labelText := draft.labelText;
      }
      FlushLabel(edge.textProperties, draft.labelVisible, draft.labelColor, draft.labelSize);
      FlushToEdgeAttributes(draft, edge);
    }

    /** Writes every value the draft holds for an edge column. */
    method FlushToEdgeAttributes(draft: EdgeDraft, edge: Edge)
      modifies edge`attributes
      ensures edge.attributes == WriteValues(old(edge.attributes), container.edgeColumns, draft.values)
    {
      edge.attributes := FlushValues(edge.attributes, container.edgeColumns, draft.values);
    }

    method SetContainer(c: Container)
      modifies this`container
      ensures container == c
    {
      container := c;
    }
  }
}
