TestResult.DisplayName,TestResult.Outcome,TestResult.Duration,TestResult.ResourceCount,RandomSeed
Codec.ItemsToJson (well-formedness),Passed,00:00:00.5389854,1040925,2
