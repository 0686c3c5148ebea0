# t

## Model

| member | source | states |
|---|---|---|
| EnvTokens.UnfoldComposes | lib/lflag/envtemplate.go:55-72 | unfolding e levels in variables already unfolded d levels is e times d + 1 levels in the original ones |
| EnvTokens.RoundsUnfold | lib/lflag/envtemplate.go:55-72 | for every set of variables, cyclic or not, n rounds unfold each value exactly 2^n - 1 levels deep |
| EnvTokens.RoundPreservesMeaning | lib/lflag/envtemplate.go:55-72 | with acyclic definitions each round keeps them acyclic and keeps every variable's full recursive meaning |
| EnvTokens.RoundsReachMeaning | lib/lflag/envtemplate.go:55-72 | as many rounds as there are variables give every variable that meaning |
| EnvTokens.MeaningIsClosed | lib/lflag/envtemplate.go:74-84 | no known reference is left in it |
| EnvTokens.ClosedMeansItself | lib/lflag/envtemplate.go:74-84 | text and unknown references mean themselves |
| EnvTokens.MeaningConcat | lib/lflag/envtemplate.go:74-84 | a value's meaning is that of its parts side by side |
| EnvTokens.ReferenceMeans | lib/lflag/envtemplate.go:23-28 | a known reference means what its variable means |
| EnvTokens.RoundsSettle | lib/lflag/envtemplate.go:55-72 | once every variable has its meaning a further round changes nothing |

## Left out

- x
