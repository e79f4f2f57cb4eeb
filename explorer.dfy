/** The editor frame around the wrapped text: a registry of files, the explorer
    sidebar and the row of open tabs. `Workbench` holds the three pieces of state the
    component updates (`openTabs`, `activeFileId`, `sidebarOpen`); each event handler is
    one method, taken as a single atomic transition. */
module Explorer {
  import LineWrap

  datatype Option<T> = None | Some(value: T)

  /** One entry of the file registry; `name` is the label shown for it. */
  datatype FileDescriptor = FileDescriptor(id: string, name: string, content: string)

  /** The glyph shown in front of a file name. */
  datatype Icon = Note | Page

  /** `files.find((f) => f.id === id)`: the first file with that id, if any. */
  function Find(files: seq<FileDescriptor>, id: string): (r: Option<FileDescriptor>)
    ensures r.None? <==> forall i | 0 <= i < |files| :: files[i].id != id
    ensures r.Some? ==> exists i | 0 <= i < |files| ::
              files[i] == r.value && r.value.id == id && forall j | 0 <= j < i :: files[j].id != id
  {
    if |files| == 0 then None
    else if files[0].id == id then Some(files[0])
    else
      var r := Find(files[1..], id);
      if r.Some? then
        assert forall j | 1 <= j < |files| :: files[j] == files[1..][j - 1];
        r
      else
        assert forall j | 1 <= j < |files| :: files[j] == files[1..][j - 1];
        None
  }

  /** Some file of the registry carries `id`. */
  predicate Registered(files: seq<FileDescriptor>, id: string) {
    exists i | 0 <= i < |files| :: files[i].id == id
  }

  /** `name.endsWith(".md")` picks the note glyph, anything else the page glyph. */
  function IconFor(name: string): (icon: Icon)
    ensures icon == Note <==> exists stem | stem <= name :: name == stem + ".md"
  {
    if |name| >= 3 && name[|name| - 3..] == ".md" then
      assert name == name[..|name| - 3] + ".md";
      Note
    else
      Page
  }

  /** The caption of an open tab: the label of the first file with its id, or the
      bare id when no file carries it (`file?.label ?? tabId`). */
  function TabLabel(files: seq<FileDescriptor>, tabId: string): (caption: string)
    ensures !Registered(files, tabId) ==> caption == tabId
    ensures Registered(files, tabId) ==>
              exists i | 0 <= i < |files| :: files[i].id == tabId && files[i].name == caption
                && forall j | 0 <= j < i :: files[j].id != tabId
  {
    match Find(files, tabId)
    case Some(f) => f.name
    case None => tabId
  }

  predicate NoDuplicates(tabs: seq<string>) {
    forall i, j | 0 <= i < j < |tabs| :: tabs[i] != tabs[j]
  }

  /** `tabs.includes(id) ? tabs : [...tabs, id]`: the id is open afterwards, the tabs
      already open keep their places, and no tab appears twice. */
  function AddTab(tabs: seq<string>, id: string): (r: seq<string>)
    ensures tabs <= r && id in r
    ensures forall t :: t in r <==> t in tabs || t == id
    ensures id in tabs ==> r == tabs
    ensures id !in tabs ==> |r| == |tabs| + 1
    ensures NoDuplicates(tabs) ==> NoDuplicates(r)
  {
    if id in tabs then tabs else tabs + [id]
  }

  /** `tabs.filter((t) => t !== id)`: every occurrence of `id` goes, the other tabs stay
      in their order. */
  function Without(tabs: seq<string>, id: string): (r: seq<string>)
    ensures forall t :: t in r <==> t in tabs && t != id
    ensures |r| <= |tabs|
    ensures id !in tabs ==> r == tabs
    ensures NoDuplicates(tabs) ==> NoDuplicates(r)
  {
    if |tabs| == 0 then []
    else
      var init := Without(tabs[..|tabs| - 1], id);
      var last := tabs[|tabs| - 1];
      assert tabs == tabs[..|tabs| - 1] + [last];
      if last == id then init
      else
        assert NoDuplicates(tabs) ==> last !in tabs[..|tabs| - 1];
        init + [last]
  }

  /** Filtering keeps the relative order: it distributes over concatenation. */
  lemma {:induction false} WithoutDistributes(a: seq<string>, b: seq<string>, id: string)
    ensures Without(a + b, id) == Without(a, id) + Without(b, id)
    decreases |b|
  {
    if |b| == 0 {
      assert a + b == a;
    } else {
      var init, last := b[..|b| - 1], b[|b| - 1];
      assert (a + b)[..|a + b| - 1] == a + init;
      assert (a + b)[|a + b| - 1] == last;
      WithoutDistributes(a, init, id);
    }
  }

  /** Closing a tab that is not the only tab of a duplicate-free row leaves at least
      one tab, so the fallback to the default tab never fires. */
  lemma CloseNeverEmpties(tabs: seq<string>, id: string)
    requires |tabs| > 0 && NoDuplicates(tabs) && tabs != [id]
    ensures |Without(tabs, id)| > 0
  {
    var keep := if tabs[0] != id then tabs[0] else tabs[1];
    assert keep in tabs && keep != id;
    assert keep in Without(tabs, id);
  }

  class Workbench {
    const files: seq<FileDescriptor>
    const defaultFileId: string
    var openTabs: seq<string>
    var activeFileId: string
    var sidebarOpen: bool

    /** The registry is not empty and its first file is the default; at least one tab
        is open, none twice, each for a registered file, and the active file is one of
        them. */
    ghost predicate Valid()
      reads this
    {
      |files| > 0 && defaultFileId == files[0].id
      && |openTabs| > 0 && NoDuplicates(openTabs)
      && (forall t | t in openTabs :: Registered(files, t))
      && activeFileId in openTabs
    }

    /** The component's first render: the default file open and active, the sidebar
        shown. */
    constructor (registry: seq<FileDescriptor>)
      requires |registry| > 0
      ensures files == registry && defaultFileId == registry[0].id
      ensures openTabs == [defaultFileId] && activeFileId == defaultFileId && sidebarOpen
      ensures Valid()
    {
      files := registry;
      defaultFileId := registry[0].id;
      openTabs := [registry[0].id];
      activeFileId := registry[0].id;
      sidebarOpen := true;
    }

    /** Clicking a file in the explorer: show the sidebar, open the file's tab unless it
        is open already, and make it active. */
    method OpenFile(fileId: string)
      modifies this
      ensures sidebarOpen
      ensures openTabs == AddTab(old(openTabs), fileId)
      ensures activeFileId == fileId
      ensures old(Valid()) && Registered(files, fileId) ==> Valid()
    {
      sidebarOpen := true;
      openTabs := if fileId in openTabs then openTabs else openTabs + [fileId];
      activeFileId := fileId;
    }

    /** Closing a tab. The only tab stays open. Otherwise every tab for the file goes;
        when the closed file was active, the last remaining tab (or the default file)
        becomes active; an empty row falls back to the default tab. */
    method CloseTab(fileId: string)
      modifies this
      ensures old(openTabs) == [fileId] ==>
                openTabs == old(openTabs) && activeFileId == old(activeFileId)
      ensures old(openTabs) != [fileId] ==>
                var rest := Without(old(openTabs), fileId);
                && openTabs == (if |rest| > 0 then rest else [defaultFileId])
                && activeFileId == (if old(activeFileId) != fileId then old(activeFileId)
                                    else if |rest| > 0 then rest[|rest| - 1]
                                    else defaultFileId)
      ensures sidebarOpen == old(sidebarOpen)
      ensures old(Valid()) ==> Valid()
      ensures old(Valid()) && old(openTabs) != [fileId] ==> openTabs == Without(old(openTabs), fileId)
    {
      if |openTabs| == 1 && openTabs[0] == fileId {
        return;
      }
      var nextTabs := Without(openTabs, fileId);
      if Valid() {
        CloseNeverEmpties(openTabs, fileId);
      }
      if activeFileId == fileId {
        activeFileId := if |nextTabs| > 0 then nextTabs[|nextTabs| - 1] else defaultFileId;
      }
      openTabs := if |nextTabs| > 0 then nextTabs else [defaultFileId];
    }

    /** The close mark of a tab: inert while only one tab is open. */
    method PressClose(tabId: string)
      modifies this
      ensures |old(openTabs)| == 1 ==>
                openTabs == old(openTabs) && activeFileId == old(activeFileId)
      ensures |old(openTabs)| != 1 ==>
                var rest := Without(old(openTabs), tabId);
                && openTabs == (if |rest| > 0 then rest else [defaultFileId])
                && activeFileId == (if old(activeFileId) != tabId then old(activeFileId)
                                    else if |rest| > 0 then rest[|rest| - 1]
                                    else defaultFileId)
      ensures sidebarOpen == old(sidebarOpen)
      ensures old(Valid()) ==> Valid()
    {
      if |openTabs| != 1 {
        CloseTab(tabId);
      }
    }

    /** Clicking a tab makes its file active; nothing else changes. */
    method SelectTab(tabId: string)
      modifies this
      ensures activeFileId == tabId
      ensures openTabs == old(openTabs) && sidebarOpen == old(sidebarOpen)
      ensures old(Valid()) && tabId in openTabs ==> Valid()
    {
      activeFileId := tabId;
    }

    /** The explorer button of the icon bar flips the sidebar. */
    method ToggleSidebar()
      modifies this
      ensures sidebarOpen == !old(sidebarOpen)
      ensures openTabs == old(openTabs) && activeFileId == old(activeFileId)
      ensures old(Valid()) ==> Valid()
    {
      sidebarOpen := !sidebarOpen;
    }

    /** The collapse button of the open sidebar. */
    method CollapseSidebar()
      modifies this
      ensures !sidebarOpen
      ensures openTabs == old(openTabs) && activeFileId == old(activeFileId)
      ensures old(Valid()) ==> Valid()
    {
      sidebarOpen := false;
    }

    /** The expand button of the collapsed sidebar. */
    method ExpandSidebar()
      modifies this
      ensures sidebarOpen
      ensures openTabs == old(openTabs) && activeFileId == old(activeFileId)
      ensures old(Valid()) ==> Valid()
    {
      sidebarOpen := true;
    }

    /** The file shown in the editor: the first registered file with the active id,
        else the first file of the registry. In a valid state the fallback never applies. */
    function ActiveFile(): (f: FileDescriptor)
      requires |files| > 0
      reads this
      ensures f in files
      ensures Registered(files, activeFileId) ==>
                exists i | 0 <= i < |files| :: files[i] == f && f.id == activeFileId
                  && forall j | 0 <= j < i :: files[j].id != activeFileId
      ensures !Registered(files, activeFileId) ==> f == files[0]
      ensures Valid() ==> f.id == activeFileId
    {
      match Find(files, activeFileId)
      case Some(found) => found
      case None => files[0]
    }

    /** The lines the editor shows: the active file's content wrapped to the current
        budget. Every line fits the budget. */
    method DisplayLines(maxChars: int) returns (lines: seq<string>)
      requires |files| > 0 && maxChars >= 1
      ensures lines == LineWrap.Wrap(ActiveFile().content, maxChars)
      ensures forall i | 0 <= i < |lines| :: |lines[i]| <= maxChars
    {
      lines := LineWrap.WrapToWidth(ActiveFile().content, maxChars);
    }
  }

  lemma WithoutMiddle(x: string, y: string, z: string)
    requires x != y && y != z
    ensures Without([x, y, z], y) == [x, z]
  {
    assert [x, y, z][..2] == [x, y] && [x, y][..1] == [x] && [x][..0] == [];
  }

  /** Opening two more files, looking at the middle one and closing it leaves the other
      two, with the last one active and shown. */
  method CloseMiddleTab(a: FileDescriptor, b: FileDescriptor, c: FileDescriptor)
    returns (tabs: seq<string>, active: string, shown: string)
    requires a.id != b.id && b.id != c.id && a.id != c.id
    ensures tabs == [a.id, c.id] && active == c.id && shown == c.content
  {
    var bench := new Workbench([a, b, c]);
    bench.OpenFile(b.id);
    assert bench.openTabs == [a.id, b.id];
    bench.OpenFile(c.id);
    assert bench.openTabs == [a.id, b.id, c.id];
    bench.SelectTab(b.id);
    bench.CloseTab(b.id);
    WithoutMiddle(a.id, b.id, c.id);
    tabs, active := bench.openTabs, bench.activeFileId;
    var f := bench.ActiveFile();
    assert bench.files[2].id == c.id;
    shown := f.content;
  }
}
