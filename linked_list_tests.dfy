/**
 * The scenarios of the list's own tests, and the edge cases of `remove`,
 * stated as client methods whose assertions follow from the contracts of
 * `LinkedLists` alone.
 */
module LinkedListTests {

  import opened Wrappers
  import opened LinkedLists

  /** `create_numeric_list`: three adds give length 3. */
  method CreateNumericList()
  {
    var list := new LinkedList<int>();
    list.Add(1);
    list.Add(2);
    list.Add(3);
    assert list.Contents == [1, 2, 3];
    assert list.length == 3;
  }

  /** A string shown as itself. */
  function Verbatim(s: string): string
  {
    s
  }

  /** The rendering of the string list "A", "B", "C". */
  lemma RenderABC()
    ensures Join(["A", "B", "C"], Verbatim) == "A, B, C"
  {
    JoinSnoc([], "A", Verbatim);
    JoinSnoc(["A"], "B", Verbatim);
    JoinSnoc(["A", "B"], "C", Verbatim);
    assert [] + ["A"] == ["A"] && ["A"] + ["B"] == ["A", "B"] && ["A", "B"] + ["C"] == ["A", "B", "C"];
  }

  /** `create_string_list`, with the rendering the tests print. */
  method CreateStringList()
  {
    var list := new LinkedList<string>();
    list.Add("A");
    list.Add("B");
    list.Add("C");
    assert list.length == 3;
    var text := list.ToString(Verbatim);
    assert list.Contents == ["A", "B", "C"];
    RenderABC();
    assert text == "A, B, C";
  }

  /** `get_by_index_in_numeric_list`: after adding 1 and 2, index 1 holds 2. */
  method GetByIndexInNumericList()
  {
    var list := new LinkedList<int>();
    list.Add(1);
    list.Add(2);
    var item := list.Get(1);
    assert item == Some(2);
    assert list.Get(2) == None && list.Get(-1) == None;
  }

  /** `get_by_index_in_string_list`: after adding "A" and "B", index 1 holds "B". */
  method GetByIndexInStringList()
  {
    var list := new LinkedList<string>();
    list.Add("A");
    list.Add("B");
    var item := list.Get(1);
    assert item == Some("B");
  }

  /** `remove` on an empty list, and past the tail of a non-empty one. */
  method RemoveMissing()
  {
    var list := new LinkedList<int>();
    var r := list.Remove(0);
    assert r == None;
    list.Add(1);
    list.Add(2);
    r := list.Remove(5);
    assert r == None && list.Contents == [1, 2];
  }

  /** `remove` in the middle, at a negative index (the head), and of the
      last remaining node, which leaves both ends absent. */
  method RemovePresent()
  {
    var list := new LinkedList<int>();
    list.Add(1);
    list.Add(2);
    list.Add(3);
    var r := list.Remove(1);
    assert r == Some(2) && list.Contents == [1, 3];
    r := list.Remove(-1);
    assert r == Some(1) && list.Contents == [3];
    r := list.Remove(0);
    assert r == Some(3) && list.Contents == [];
    assert list.start == null && list.end == null && list.length == 0;
  }
}
