/** All v1 books, one a symbol. */
module BaselineMarkets {
  import opened Numbers
  import opened BookSpec
  import opened MarketSpec
  import BaselineBook

  type Books = map<uint16, BaselineBook.OrderBook>

  // Runs the handler that the message's type selects.
  method Dispatch(b: BaselineBook.OrderBook, m: Message)
    requires b.Valid() && StartsFresh(b.View(), m)
    modifies b
    ensures b.Valid() && b.View() == Apply(old(b.View()), m, true)
  {
    hide BaselineBook.Indexed, BaselineBook.Denote, BaselineBook.Both, SweepBook, Join, IsBid, Live;
    match m
    case AddOrder(_, ref, side, shares, price) => b.AddOrder(ref, side, shares, price);
    case OrderExecuted(_, ref, n) => b.ExecuteOrder(ref, n);
    case OrderCancel(_, ref, n) => b.CancelOrder(ref, n);
    case OrderDelete(_, ref) => b.DeleteOrder(ref);
    case OrderReplace(_, ref, newRef, shares, price) => b.ReplaceOrder(ref, newRef, shares, price);
  }

  // A symbol without a book and one with an empty book are the same to a message.
  lemma NewSymbol(mk: MarketSpec.Market, m: Message)
    ensures m.locate in mk ==> BookAt(mk, m.locate) == mk[m.locate]
    ensures m.locate !in mk ==> BookAt(mk, m.locate) == map[]
    ensures m.locate !in mk ==> Step(mk[m.locate := map[]], m, true) == Step(mk, m, true)
  {
  }

  class Market {
    var books: Books
    ghost var View: MarketSpec.Market
    ghost var Repr: set<object>

    ghost predicate Valid()
      reads this, Repr
    {
      && this in Repr && View.Keys == books.Keys
      && (forall l :: l in books ==> books[l] in Repr && books[l].Valid() && books[l].View() == View[l])
      && (forall l, n :: l in books && n in books && l != n ==> books[l] != books[n])
    }

    constructor ()
      ensures Valid() && fresh(Repr) && this in Repr && View == map[] && books == map[]
    {
      books, View, Repr := map[], map[], {this};
    }

    method Process(m: Message)
      requires Valid() && StartsFresh(BookAt(View, m.locate), m)
      modifies Repr
      ensures Valid() && fresh(Repr - old(Repr))
      ensures this in Repr
      ensures View == Step(old(View), m, true)
      ensures books.Keys == old(books.Keys) + {m.locate}
      // Every other book is the object it was, with all it holds.
      ensures forall l :: l in old(books) && l != m.locate ==>
                l in books && books[l] == old(books)[l] && unchanged(books[l])
    {
      hide *;
      Parts();
      NewSymbol(View, m);
      if m.locate !in books {
        Install(m.locate);
        Parts();
      }
      Handle(m);
      Parts();
    }

    lemma Parts()
      requires Valid()
      ensures this in Repr && View.Keys == books.Keys
      ensures forall l :: l in books ==> books[l] in Repr
      ensures forall l, n :: l in books && n in books && l != n ==> books[l] != books[n]
    {
    }

    // A symbol's book is constructed on first use.
    method Install(locate: uint16)
      requires Valid() && locate !in books
      modifies this
      ensures Valid() && fresh(Repr - old(Repr))
      ensures View == old(View)[locate := map[]] && books.Keys == old(books.Keys) + {locate}
      ensures forall l :: l in old(books) ==> books[l] == old(books)[l]
    {
      hide BaselineBook.OrderBook.Valid, BaselineBook.OrderBook.View;
      var b := new BaselineBook.OrderBook();
      books := books[locate := b];
      Repr := Repr + {b};
      View := View[locate := map[]];
    }

    method Handle(m: Message)
      requires Valid() && m.locate in books && StartsFresh(View[m.locate], m)
      modifies this`View, books[m.locate]
      ensures Valid()
      ensures View == Step(old(View), m, true)
    {
      hide BaselineBook.OrderBook.Valid, BaselineBook.OrderBook.View, Apply, StartsFresh;
      Dispatch(books[m.locate], m);
      View := View[m.locate := Apply(View[m.locate], m, true)];
    }

    method BestBidAsk(locate: uint16) returns (top: Option<(uint32, uint32)>)
      requires Valid() && locate in books
      ensures IsTop(View[locate], top)
    {
      top := books[locate].BestBidAsk();
    }
  }
}
