/** The in-place line editor against a two-list zipper, and history navigation with the arrow keys. */
module LineEditor {

  // ---------------------------------------------------------------------------
  // The zipper
  // ---------------------------------------------------------------------------

  /** The text before the cursor, nearest character first, and the text from the cursor on. */
  datatype Zipper = Zipper(left: List, right: List)

  datatype List = Nil | Cons(head: char, tail: List)

  datatype Edit = Insert(c: char) | DeleteBack | DeleteForward | MoveLeft | MoveRight

  function Edited(z: Zipper, e: Edit): Zipper {
    match (e, z)
    case (Insert(c), _) => z.(left := Cons(c, z.left))
    case (DeleteBack, Zipper(Cons(_, l), r)) => Zipper(l, r)
    case (DeleteForward, Zipper(l, Cons(_, r))) => Zipper(l, r)
    case (MoveLeft, Zipper(Cons(c, l), r)) => Zipper(l, Cons(c, r))
    case (MoveRight, Zipper(l, Cons(c, r))) => Zipper(Cons(c, l), r)
    case _ => z
  }

  function EditedAll(z: Zipper, edits: seq<Edit>): Zipper
    decreases |edits|
  {
    if edits == [] then z else EditedAll(Edited(z, edits[0]), edits[1..])
  }

  function FromSeq(s: seq<char>): List {
    if s == [] then Nil else Cons(s[0], FromSeq(s[1..]))
  }

  /** The list of a sequence read backwards. */
  function FromSeqBack(s: seq<char>): List {
    if s == [] then Nil else Cons(s[|s| - 1], FromSeqBack(s[..|s| - 1]))
  }

  /** The zipper of a buffer and a cursor. */
  function Abstraction(buf: seq<char>, cursor: nat): Zipper
    requires cursor <= |buf|
  {
    Zipper(FromSeqBack(buf[..cursor]), FromSeq(buf[cursor..]))
  }

  lemma {:induction false} FromSeqInjective(a: seq<char>, b: seq<char>)
    ensures FromSeq(a) == FromSeq(b) <==> a == b
    decreases |a|
  {
    if a != [] && b != [] {
      FromSeqInjective(a[1..], b[1..]);
      assert a == [a[0]] + a[1..] && b == [b[0]] + b[1..];
    }
  }

  lemma {:induction false} FromSeqBackInjective(a: seq<char>, b: seq<char>)
    ensures FromSeqBack(a) == FromSeqBack(b) <==> a == b
    decreases |a|
  {
    if a != [] && b != [] {
      FromSeqBackInjective(a[..|a| - 1], b[..|b| - 1]);
      assert a == a[..|a| - 1] + [a[|a| - 1]] && b == b[..|b| - 1] + [b[|b| - 1]];
    }
  }

  /** The zipper determines the buffer and the cursor. */
  lemma AbstractionIsFaithful(buf: seq<char>, cursor: nat, buf': seq<char>, cursor': nat)
    requires cursor <= |buf| && cursor' <= |buf'|
    ensures Abstraction(buf, cursor) == Abstraction(buf', cursor') <==> buf == buf' && cursor == cursor'
  {
    FromSeqBackInjective(buf[..cursor], buf'[..cursor']);
    FromSeqInjective(buf[cursor..], buf'[cursor'..]);
    if Abstraction(buf, cursor) == Abstraction(buf', cursor') {
      assert cursor == |buf[..cursor]| == |buf'[..cursor']| == cursor';
      assert buf == buf[..cursor] + buf[cursor..] && buf' == buf'[..cursor'] + buf'[cursor'..];
    }
  }

  // ---------------------------------------------------------------------------
  // The editor
  // ---------------------------------------------------------------------------

  /** Go's `copy(s[dst:], s[src:])` on overlapping parts of one slice. */
  function Copied(s: seq<char>, dst: nat, src: nat): (r: seq<char>)
    requires dst <= |s| && src <= |s|
    ensures |r| == |s|
  {
    var n := if |s| - dst < |s| - src then |s| - dst else |s| - src;
    s[..dst] + s[src..src + n] + s[dst + n..]
  }

  /** The buffer after one edit, in terms of the buffer. */
  function BufferAfter(buf: seq<char>, cursor: nat, e: Edit): (r: (seq<char>, nat))
    requires cursor <= |buf|
    ensures r.1 <= |r.0|
  {
    match e
    case Insert(c) => (buf[..cursor] + [c] + buf[cursor..], cursor + 1)
    case DeleteBack => if cursor == 0 then (buf, cursor) else (buf[..cursor - 1] + buf[cursor..], cursor - 1)
    case DeleteForward => if cursor >= |buf| then (buf, cursor) else (buf[..cursor] + buf[cursor + 1..], cursor)
    case MoveLeft => (buf, if cursor > 0 then cursor - 1 else cursor)
    case MoveRight => (buf, if cursor < |buf| then cursor + 1 else cursor)
  }

  /** Each edit of the buffer is the zipper's edit. */
  lemma EditRefines(buf: seq<char>, cursor: nat, e: Edit)
    requires cursor <= |buf|
    ensures var (buf', cursor') := BufferAfter(buf, cursor, e);
            Abstraction(buf', cursor') == Edited(Abstraction(buf, cursor), e)
  {
    var (buf', cursor') := BufferAfter(buf, cursor, e);
    match e
    case Insert(c) =>
      assert buf'[..cursor'][..cursor] == buf[..cursor];
      assert buf'[cursor'..] == buf[cursor..];
    case DeleteBack =>
      if cursor > 0 {
        assert buf'[..cursor'] == buf[..cursor][..cursor - 1];
        assert buf'[cursor'..] == buf[cursor..];
      }
    case DeleteForward =>
      if cursor < |buf| {
        assert buf'[..cursor'] == buf[..cursor];
        assert buf'[cursor'..] == buf[cursor..][1..];
      }
    case MoveLeft =>
      if cursor > 0 {
        assert buf'[..cursor'] == buf[..cursor][..cursor - 1];
        assert buf'[cursor'..][1..] == buf[cursor..];
      }
    case MoveRight =>
      if cursor < |buf| {
        assert buf'[..cursor'][..cursor] == buf[..cursor];
        assert buf'[cursor'..] == buf[cursor..][1..];
      }
  }

  class Editor {
    var buf: seq<char>
    var cursor: nat

    ghost predicate Valid()
      reads this
    {
      cursor <= |buf|
    }

    ghost function View(): Zipper
      reads this
      requires Valid()
    {
      Abstraction(buf, cursor)
    }

    constructor ()
      ensures Valid() && buf == [] && cursor == 0
    {
      buf, cursor := [], 0;
    }

    /** `editorFromString`: the cursor goes to the end. */
    constructor FromString(s: seq<char>)
      ensures Valid() && buf == s && cursor == |s|
    {
      buf, cursor := s, |s|;
    }

    method Insert(c: char)
      requires Valid()
      modifies this
      ensures Valid() && View() == Edited(old(View()), Edit.Insert(c))
    {
      EditRefines(buf, cursor, Edit.Insert(c));
      ghost var target := BufferAfter(buf, cursor, Edit.Insert(c)).0;
      buf := buf + ['\0'];
      buf := Copied(buf, cursor + 1, cursor);
      buf := buf[cursor := c];
      cursor := cursor + 1;
      assert buf == target;
    }

    method DeleteBack()
      requires Valid()
      modifies this
      ensures Valid() && View() == Edited(old(View()), Edit.DeleteBack)
    {
      EditRefines(buf, cursor, Edit.DeleteBack);
      if cursor == 0 {
        return;
      }
      buf := buf[..cursor - 1] + buf[cursor..];
      cursor := cursor - 1;
    }

    method DeleteForward()
      requires Valid()
      modifies this
      ensures Valid() && View() == Edited(old(View()), Edit.DeleteForward)
    {
      EditRefines(buf, cursor, Edit.DeleteForward);
      if cursor >= |buf| {
        return;
      }
      buf := buf[..cursor] + buf[cursor + 1..];
    }

    method MoveLeft()
      requires Valid()
      modifies this
      ensures Valid() && View() == Edited(old(View()), Edit.MoveLeft)
    {
      EditRefines(buf, cursor, Edit.MoveLeft);
      if cursor > 0 {
        cursor := cursor - 1;
      }
    }

    method MoveRight()
      requires Valid()
      modifies this
      ensures Valid() && View() == Edited(old(View()), Edit.MoveRight)
    {
      EditRefines(buf, cursor, Edit.MoveRight);
      if cursor < |buf| {
        cursor := cursor + 1;
      }
    }

    /** Any sequence of edits, applied one call at a time. */
    method Apply(edits: seq<Edit>)
      requires Valid()
      modifies this
      ensures Valid() && View() == EditedAll(old(View()), edits)
    {
      var i := 0;
      while i < |edits|
        invariant 0 <= i <= |edits| && Valid()
        invariant EditedAll(View(), edits[i..]) == EditedAll(old(View()), edits)
      {
        assert edits[i..][1..] == edits[i + 1..];
        match edits[i] {
          case Insert(c) => Insert(c);
          case DeleteBack => DeleteBack();
          case DeleteForward => DeleteForward();
          case MoveLeft => MoveLeft();
          case MoveRight => MoveRight();
        }
        i := i + 1;
      }
    }
  }

  /** Over all edit sequences the buffer and cursor are exactly those whose zipper is the edited zipper. */
  function BufferAfterAll(buf: seq<char>, cursor: nat, edits: seq<Edit>): (r: (seq<char>, nat))
    requires cursor <= |buf|
    ensures r.1 <= |r.0|
    decreases |edits|
  {
    if edits == [] then (buf, cursor) else
    var (b, c) := BufferAfter(buf, cursor, edits[0]);
    BufferAfterAll(b, c, edits[1..])
  }

  lemma {:induction false} EditsRefine(buf: seq<char>, cursor: nat, edits: seq<Edit>)
    requires cursor <= |buf|
    ensures var (b, c) := BufferAfterAll(buf, cursor, edits);
            Abstraction(b, c) == EditedAll(Abstraction(buf, cursor), edits)
    decreases |edits|
  {
    hide Abstraction, Edited, BufferAfter;
    if edits != [] {
      EditRefines(buf, cursor, edits[0]);
      var (b, c) := BufferAfter(buf, cursor, edits[0]);
      EditsRefine(b, c, edits[1..]);
    }
  }

  // ---------------------------------------------------------------------------
  // What the edits mean
  // ---------------------------------------------------------------------------

  function LengthOf(l: List): nat {
    match l case Nil => 0 case Cons(_, tail) => 1 + LengthOf(tail)
  }

  /** The zipper's text, and where its cursor stands. */
  function TextOf(z: Zipper): string
    decreases z.left
  {
    match z.left
    case Nil => Forward(z.right)
    case Cons(c, l) => TextOf(Zipper(l, Cons(c, z.right)))
  }

  function Forward(l: List): string {
    match l case Nil => "" case Cons(c, tail) => [c] + Forward(tail)
  }

  lemma {:induction false} TextOfAbstraction(buf: seq<char>, cursor: nat)
    requires cursor <= |buf|
    ensures TextOf(Abstraction(buf, cursor)) == buf && LengthOf(Abstraction(buf, cursor).left) == cursor
    decreases cursor
  {
    if cursor == 0 {
      assert buf[..0] == [] && buf[0..] == buf;
      ForwardOf(buf);
    } else {
      TextOfAbstraction(buf, cursor - 1);
      assert buf[..cursor][..cursor - 1] == buf[..cursor - 1] && buf[cursor - 1..][1..] == buf[cursor..];
    }
  }

  lemma {:induction false} ForwardOf(s: seq<char>)
    ensures Forward(FromSeq(s)) == s
  {
    if s != [] {
      ForwardOf(s[1..]);
      assert s == [s[0]] + s[1..];
    }
  }

  /**
   What one edit does to the text and the cursor: a character appears at the cursor, one disappears before or at it, or
   only the cursor moves by one; at an end of the text a deletion or a move beyond it does nothing.
   */
  lemma EditMeaning(buf: seq<char>, cursor: nat, e: Edit)
    requires cursor <= |buf|
    ensures var z := Edited(Abstraction(buf, cursor), e);
            var text, at := TextOf(z), LengthOf(z.left);
            match e
            case Insert(c) => text == buf[..cursor] + [c] + buf[cursor..] && at == cursor + 1
            case DeleteBack =>
              if cursor == 0 then text == buf && at == 0
              else text == buf[..cursor - 1] + buf[cursor..] && at == cursor - 1
            case DeleteForward =>
              at == cursor && text == if cursor == |buf| then buf else buf[..cursor] + buf[cursor + 1..]
            case MoveLeft => text == buf && at == if cursor == 0 then 0 else cursor - 1
            case MoveRight => text == buf && at == if cursor == |buf| then cursor else cursor + 1
  {
    var (buf', cursor') := BufferAfter(buf, cursor, e);
    EditRefines(buf, cursor, e);
    TextOfAbstraction(buf', cursor');
    hide Abstraction, Edited, TextOf, LengthOf;
  }

  /** Typing a text leaves it in the editor, with the cursor at its end. */
  lemma {:induction false} TypingShows(s: string)
    ensures EditedAll(Abstraction([], 0), seq(|s|, i requires 0 <= i < |s| => Insert(s[i]))) == Abstraction(s, |s|)
    decreases |s|
  {
    var edits := seq(|s|, i requires 0 <= i < |s| => Insert(s[i]));
    if s != "" {
      var front := s[..|s| - 1];
      var before := seq(|front|, i requires 0 <= i < |front| => Insert(front[i]));
      TypingShows(front);
      assert edits == before + [Insert(s[|s| - 1])];
      EditedAppend(Abstraction([], 0), before, Insert(s[|s| - 1]));
      EditRefines(front, |front|, Insert(s[|s| - 1]));
      assert front[..|front|] + [s[|s| - 1]] + front[|front|..] == s;
    }
  }

  lemma {:induction false} EditedAppend(z: Zipper, edits: seq<Edit>, e: Edit)
    ensures EditedAll(z, edits + [e]) == Edited(EditedAll(z, edits), e)
    decreases |edits|
  {
    hide Edited;
    if edits == [] {
      assert edits + [e] == [e] && [e][1..] == [];
      assert EditedAll(Edited(z, e), []) == Edited(z, e);
    } else {
      assert (edits + [e])[1..] == edits[1..] + [e];
      EditedAppend(Edited(z, edits[0]), edits[1..], e);
    }
  }

  // ---------------------------------------------------------------------------
  // History navigation
  // ---------------------------------------------------------------------------

  /** The edited text, the position in the history (its length means the typed line) and the saved typed line. */
  datatype Nav = Nav(text: string, pos: nat, saved: string)

  datatype Key = Up | Down

  function Pressed(n: Nav, history: seq<string>, key: Key): Nav
    requires n.pos <= |history|
  {
    match key
    case Up =>
      if n.pos > 0 then
        Nav(history[n.pos - 1], n.pos - 1, if n.pos == |history| then n.text else n.saved)
      else n
    case Down =>
      if n.pos < |history| then
        Nav(if n.pos + 1 == |history| then n.saved else history[n.pos + 1], n.pos + 1, n.saved)
      else n
  }

  function PressedAll(n: Nav, history: seq<string>, keys: seq<Key>): (r: Nav)
    requires n.pos <= |history|
    ensures r.pos <= |history|
    decreases |keys|
  {
    if keys == [] then n else PressedAll(Pressed(n, history, keys[0]), history, keys[1..])
  }

  /** The arrow keys' code on an editor: a new editor object replaces the current one. */
  method HandleKey(ed: Editor, history: seq<string>, histPos: nat, savedCurrent: string, key: Key)
    returns (ed': Editor, histPos': nat, savedCurrent': string)
    requires ed.Valid() && histPos <= |history|
    ensures Nav(ed'.buf, histPos', savedCurrent') == Pressed(Nav(ed.buf, histPos, savedCurrent), history, key)
    ensures ed'.Valid() && (ed' == ed || ed'.cursor == |ed'.buf|)
  {
    ed', histPos', savedCurrent' := ed, histPos, savedCurrent;
    if key.Up? {
      if histPos > 0 {
        if histPos == |history| {
          savedCurrent' := ed.buf;
        }
        histPos' := histPos - 1;
        ed' := new Editor.FromString(history[histPos']);
      }
    } else if histPos < |history| {
      histPos' := histPos + 1;
      var text;
      if histPos' == |history| {
        text := savedCurrent;
      } else {
        text := history[histPos'];
      }
      ed' := new Editor.FromString(text);
    }
  }

  /** Where a key sequence leads from a position, stopping at both ends. */
  function Walk(pos: nat, length: nat, keys: seq<Key>): (p: nat)
    requires pos <= length
    ensures p <= length
    decreases |keys|
  {
    if keys == [] then pos else
    Walk(match keys[0]
         case Up => if pos > 0 then pos - 1 else 0
         case Down => if pos < length then pos + 1 else length, length, keys[1..])
  }

  /** The text shown at a position while the typed line is `typed`. */
  function Shown(history: seq<string>, typed: string, pos: nat): string
    requires pos <= |history|
  {
    if pos == |history| then typed else history[pos]
  }

  /** The state is the one of a typed line that has not been edited since. */
  ghost predicate Tracks(n: Nav, history: seq<string>, typed: string) {
    n.pos <= |history| && n.text == Shown(history, typed, n.pos) && (n.pos < |history| ==> n.saved == typed)
  }

  /** After any keys the line shows the history entry, or the typed text, of the position they lead to. */
  lemma {:induction false} KeysShow(n: Nav, history: seq<string>, typed: string, keys: seq<Key>)
    requires Tracks(n, history, typed)
    ensures var r := PressedAll(n, history, keys);
            Tracks(r, history, typed) && r.pos == Walk(n.pos, |history|, keys)
    decreases |keys|
  {
    if keys != [] {
      KeysShow(Pressed(n, history, keys[0]), history, typed, keys[1..]);
    }
  }

  function Repeat(key: Key, k: nat): (keys: seq<Key>)
    ensures |keys| == k && forall i :: 0 <= i < k ==> keys[i] == key
  {
    seq(k, i => key)
  }

  lemma {:induction false} WalkDown(pos: nat, length: nat, k: nat)
    requires pos <= length
    ensures Walk(pos, length, Repeat(Down, k)) == if pos + k < length then pos + k else length
    decreases k
  {
    if k > 0 {
      assert Repeat(Down, k)[1..] == Repeat(Down, k - 1);
      WalkDown(if pos < length then pos + 1 else length, length, k - 1);
    }
  }

  lemma {:induction false} WalkUpDown(pos: nat, length: nat, k: nat, j: nat)
    requires pos <= length
    ensures Walk(pos, length, Repeat(Up, k) + Repeat(Down, j))
            == var top := if k < pos then pos - k else 0; if top + j < length then top + j else length
    decreases k
  {
    var keys := Repeat(Up, k) + Repeat(Down, j);
    if k == 0 {
      assert keys == Repeat(Down, j);
      WalkDown(pos, length, j);
    } else {
      assert keys[0] == Up && keys[1..] == Repeat(Up, k - 1) + Repeat(Down, j);
      WalkUpDown(if pos > 0 then pos - 1 else 0, length, k - 1, j);
    }
  }

  /** From the typed line, k Ups and then k Downs restore the typed text, for every k and every history. */
  lemma UpsThenDownsRestore(typed: string, saved: string, history: seq<string>, k: nat)
    ensures var r := PressedAll(Nav(typed, |history|, saved), history, Repeat(Up, k) + Repeat(Down, k));
            r.text == typed && r.pos == |history|
  {
    KeysShow(Nav(typed, |history|, saved), history, typed, Repeat(Up, k) + Repeat(Down, k));
    WalkUpDown(|history|, |history|, k, k);
  }

  /**
   From any position, k Ups and then k Downs come back to it exactly when the Ups do not pass the oldest entry or the
   position is the typed line; otherwise they end k below the oldest entry, at most on the typed line.
   */
  lemma UpsThenDownsFrom(n: Nav, history: seq<string>, typed: string, k: nat)
    requires Tracks(n, history, typed)
    ensures var r := PressedAll(n, history, Repeat(Up, k) + Repeat(Down, k));
            && (r.pos == n.pos <==> k <= n.pos || n.pos == |history|)
            && (r.pos == n.pos ==> r.text == n.text)
            && (k > n.pos ==>
                  r.pos == (if k < |history| then k else |history|) && r.text == Shown(history, typed, r.pos))
  {
    KeysShow(n, history, typed, Repeat(Up, k) + Repeat(Down, k));
    WalkUpDown(n.pos, |history|, k, k);
  }
}
