/** Where dbz keeps its slots. */
module DbzTables {
  import opened DbzSlots
  import opened DbzIndex

  /** The slot tables: the .pag file and the in-core copy of its first table. */
  class Tables {
    const tsize: nat
    const writethrough: bool
    var pag: seq<Word>          // the .pag file
    const corepag: array?<Word> // in-core copy of the first table

    /** The table half of dbminit: getcore reads the first table into core and
        pads it with vacant slots. */
    constructor Open(tsize: nat, file: seq<Word>, incore: bool, writethrough: bool)
      requires tsize > 0
      ensures Valid() && this.tsize == tsize && this.writethrough == writethrough && pag == file
      ensures InStep() && (incore <==> corepag != null)
      ensures corepag != null ==> fresh(corepag)
      ensures forall p: nat :: SlotAt(View(), p) == SlotAt(file, p)
    {
      this.tsize, this.writethrough, pag := tsize, writethrough, file;
      if incore {
        corepag := new Word[tsize](i requires 0 <= i => SlotAt(file, i));
      } else {
        corepag := null;
      }
      new;
      forall p: nat
        ensures SlotAt(View(), p) == SlotAt(file, p)
      {
        assert Read(p) == SlotAt(View(), p);
      }
    }

    /** All slots, with the first table taken from core when it is there. */
    ghost function View(): seq<Word>
      reads this, corepag
    {
      if corepag == null then pag
      else corepag[..] + (if |pag| > corepag.Length then pag[corepag.Length..] else [])
    }

    ghost predicate Valid()
      reads this, corepag
    {
      && tsize > 0
      && (corepag != null ==> corepag.Length == tsize)
      && (writethrough ==> InStep())
    }

    /** The in-core table, if any, and the file agree. */
    ghost predicate InStep()
      requires corepag != null ==> corepag.Length == tsize
      reads this, corepag
    {
      corepag != null ==> forall p: nat :: p < tsize ==> corepag[p] == SlotAt(pag, p)
    }

    /** A slot as search reads it: from core if it is there, else from the
        file, where reading beyond the end counts as vacant. */
    function Read(p: nat): (v: Word)
      requires Valid()
      reads this, corepag
      ensures v == SlotAt(View(), p)
    {
      if corepag != null && p < tsize then corepag[p] else SlotAt(pag, p)
    }

    /** fseek and fwrite on the .pag file; the gap, if any, reads as vacant. */
    method WriteFile(p: nat, v: Word)
      modifies this
      ensures forall q: nat :: SlotAt(pag, q) == if q == p then v else SlotAt(old(pag), q)
    {
      if p >= |pag| {
        pag := pag + seq(p + 1 - |pag|, _ => VACANT);
      }
      pag := pag[p := v];
    }

    /** The writing half of set: store where searches will read it. */
    method Write(place: nat, v: Word)
      requires Valid()
      modifies this, corepag
      ensures Valid()
      ensures forall p: nat :: SlotAt(View(), p) == if p == place then v else SlotAt(old(View()), p)
    {
      ghost var view := View();
      Put(place, v);
      forall p: nat
        ensures SlotAt(View(), p) == if p == place then v else SlotAt(view, p)
      {
        assert Read(p) == SlotAt(View(), p);
      }
    }

    method Put(place: nat, v: Word)
      requires Valid()
      modifies this, corepag
      ensures Valid()
      ensures forall p: nat :: Read(p) == if p == place then v else old(Read(p))
    {
      if corepag != null && place < tsize {
        corepag[place] := v;
        if !writethrough {
          return;
        }
      }
      WriteFile(place, v);
    }

    /** putcore: rewrite the first table from core. */
    method PutCore()
      requires Valid()
      modifies this
      ensures Valid() && InStep() && View() == old(View())
    {
      if corepag != null {
        pag := corepag[..] + (if |pag| > tsize then pag[tsize..] else []);
      }
    }

    /** When core and file agree, the file is all there is to know. */
    lemma FileIsView()
      requires Valid() && InStep()
      ensures forall p: nat :: SlotAt(pag, p) == SlotAt(View(), p)
    {
      forall p: nat
        ensures SlotAt(pag, p) == SlotAt(View(), p)
      {
        assert Read(p) == SlotAt(View(), p);
      }
    }
  }
}
